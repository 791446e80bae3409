/** Order selection and the layout of a request inside its block: back pointer,
    header, aligned user range (src/buddy.c:6-14, 47-66, 189-203). The header size is
    a parameter: it differs between debug and release builds. */
module BuddyLayout {
  import opened Words

  const PTR_SIZE: nat := 8

  /** What size_to_order returns when the padded request exceeds the pool. */
  const OUT_OF_RANGE: nat := 6767

  function FloorLog2(value: nat): (r: nat)
    requires value > 0
    ensures Pow2(r) <= value < 2 * Pow2(r)
  {
    if value == 1 then 0 else 1 + FloorLog2(value / 2)
  }

  function CeilLog2(value: nat): (r: nat)
    ensures value <= Pow2(r)
    ensures r > 0 ==> Pow2(r - 1) < value
  {
    if value <= 1 then 0 else FloorLog2(value - 1) + 1
  }

  function BlockBytes(order: nat): nat {
    PAGE * Pow2(order)
  }

  /** What a request occupies in the worst case. */
  function Footprint(size: nat, header: nat, alignment: nat): nat
    requires alignment > 0
  {
    size + PTR_SIZE + header + alignment - 1
  }

  /** Pools of `root` + 1 orders whose addresses fit a word, with a header of
      plausible size. */
  predicate PoolFits(root: nat, header: nat) {
    root <= 51 && header <= PAGE
  }

  lemma AlignmentBound(a: nat)
    requires a < WORD && AlignmentIsValid(a)
    ensures 0 < a <= WORD / 2
  {
    AlignmentValidIffPow2(a);
    var k: nat :| a == Pow2(k);
    Pow2Values();
    if k >= 64 {
      Pow2Monotone(64, k);
    } else {
      Pow2Monotone(k, 63);
      assert Pow2(64) == 2 * Pow2(63);
    }
  }

  lemma BlockBytesIsPow2(order: nat)
    ensures BlockBytes(order) == Pow2(MIN_ORDER + order)
  {
    Pow2Values();
    Pow2Add(12, order);
  }

  /** Beyond a page, the binary logarithm less MIN_ORDER is the least order. */
  lemma CeilLog2OfBlocks(total: nat)
    requires total > PAGE
    ensures CeilLog2(total) > MIN_ORDER
    ensures BlockBytes(CeilLog2(total) - MIN_ORDER - 1) < total <= BlockBytes(CeilLog2(total) - MIN_ORDER)
  {
    var power := CeilLog2(total);
    Pow2Values();
    if power <= 12 {
      Pow2Monotone(power, 12);
    }
    BlockBytesIsPow2(power - MIN_ORDER);
    BlockBytesIsPow2(power - MIN_ORDER - 1);
  }

  lemma BlockBytesMonotone(m: nat, n: nat)
    requires m < n
    ensures 2 * BlockBytes(m) <= BlockBytes(n)
  {
    Pow2Monotone(m, n);
  }

  /** src/buddy.c: size_to_order, for a pool of root + 1 orders. */
  function SizeToOrder(root: nat, header: nat, size: nat, alignment: nat): nat
    requires alignment > 0
  {
    if size > WORD - 1 - PTR_SIZE - header - (alignment - 1) then root + 1
    else
      var total := size + PTR_SIZE + header + alignment - 1;
      if total <= PAGE then 0
      else if total > BlockBytes(root) then OUT_OF_RANGE
      else
        CeilLog2OfBlocks(total);
        CeilLog2(total) - MIN_ORDER
  }

  /** The selected order is the least whose block holds the padded request, and it is
      out of range exactly when the pool is too small or the sum overflows a word. */
  lemma OrderIsLeast(root: nat, header: nat, size: nat, alignment: nat)
    requires PoolFits(root, header) && size < WORD && alignment < WORD && AlignmentIsValid(alignment)
    ensures alignment > 0
    ensures SizeToOrder(root, header, size, alignment) <= root
            <==> Footprint(size, header, alignment) <= BlockBytes(root)
    ensures var o := SizeToOrder(root, header, size, alignment);
            o <= root ==>
              && Footprint(size, header, alignment) <= BlockBytes(o)
              && (o > 0 ==> BlockBytes(o - 1) < Footprint(size, header, alignment))
  {
    AlignmentBound(alignment);
    PoolBytesBound(root);
    var total := Footprint(size, header, alignment);
    if PAGE < total <= BlockBytes(root) {
      CeilLog2OfBlocks(total);
      hide CeilLog2, Pow2, BlockBytes;
      if root < CeilLog2(total) - MIN_ORDER {
        if root < CeilLog2(total) - MIN_ORDER - 1 {
          BlockBytesMonotone(root, CeilLog2(total) - MIN_ORDER - 1);
        }
      }
    }
  }

  lemma PoolBytesBound(root: nat)
    requires root <= 51
    ensures PAGE <= BlockBytes(root) <= WORD / 2
  {
    Pow2Values();
    Pow2Add(12, root);
    Pow2Monotone(12 + root, 63);
    assert Pow2(64) == 2 * Pow2(63);
  }

  /** The address handed to the user for a block at `block`. */
  function UserAddress(block: nat, header: nat, alignment: nat): nat
    requires block + PTR_SIZE + header < WORD && 0 < alignment < WORD
  {
    AlignUpWord(block + PTR_SIZE + header, alignment)
  }

  /** Back pointer, header and user range follow one another inside the block, and
      the user range is aligned as asked. */
  lemma RequestFits(root: nat, header: nat, size: nat, alignment: nat, block: nat)
    requires PoolFits(root, header) && size < WORD && alignment < WORD && AlignmentIsValid(alignment)
    requires SizeToOrder(root, header, size, alignment) <= root
    requires block + BlockBytes(SizeToOrder(root, header, size, alignment)) <= WORD && size > 0
    ensures block + PTR_SIZE + header < WORD && alignment > 0
    ensures var user := UserAddress(block, header, alignment);
            && user % alignment == 0
            && block + PTR_SIZE <= user - header
            && user + size <= block + BlockBytes(SizeToOrder(root, header, size, alignment))
            && user == AlignUp(block + PTR_SIZE + header, alignment)
  {
    OrderIsLeast(root, header, size, alignment);
    AlignUpWordSpec(block + PTR_SIZE + header, alignment);
  }

  /** Whatever the size, a pointer fits at the user address: arena_remote_free stores its
      link there. */
  lemma LinkFits(root: nat, header: nat, size: nat, alignment: nat, block: nat)
    requires PoolFits(root, header) && header <= PAGE / 4 && size < WORD && alignment < WORD
    requires AlignmentIsValid(alignment)
    requires SizeToOrder(root, header, size, alignment) <= root && size > 0
    ensures alignment > 0
    ensures AlignUp(block + PTR_SIZE + header, alignment) + PTR_SIZE
            <= block + BlockBytes(SizeToOrder(root, header, size, alignment))
  {
    OrderIsLeast(root, header, size, alignment);
    AlignUpAbove(block + PTR_SIZE + header, alignment);
    BlockBeyond(SizeToOrder(root, header, size, alignment), alignment);
  }

  /** Between powers of two there is room to spare. */
  lemma BlockBeyond(order: nat, alignment: nat)
    requires AlignmentIsValid(alignment) && alignment < BlockBytes(order)
    ensures alignment + PAGE / 2 <= BlockBytes(order)
  {
    AlignmentValidIffPow2(alignment);
    var k: nat :| alignment == Pow2(k);
    BlockBytesIsPow2(order);
    hide Pow2, BlockBytes, AlignmentIsValid;
    Pow2Values();
    Pow2Monotone(12, 12 + order);
    if k < 12 + order {
      Pow2Monotone(k, 12 + order);
    } else {
      Pow2Monotone(12 + order, k);
    }
  }
}
