/** How a slab region is carved into slots (src/slab.c:42-85): descriptor, then
    equal slots, each an object header followed by 16-byte aligned user data. */
module SlabLayout {
  import opened Words
  import opened BuddyLayout

  const SLAB_SIZE: nat := PAGE * 4
  const SLAB_MAX_ALIGNMENT: nat := 16
  const MAX_SLAB_OBJ_SIZE: nat := 1024
  const NUM_CACHES: nat := 8

  /** g_size_classes. */
  const SIZE_CLASSES: seq<nat> := [16, 32, 64, 128, 256, 512, 768, 1024]

  /** The structure sizes of one build, with the bounds the source relies on. `meta`
      is what lies in an extent's mapping before its usable memory. */
  datatype Sizes = Sizes(root: nat, buddyHeader: nat, objHeader: nat, slab: nat, meta: nat) {
    predicate Plausible() {
      && PoolFits(root, buddyHeader) && buddyHeader <= PAGE / 4
      && SizeToOrder(root, buddyHeader, SLAB_SIZE, SLAB_MAX_ALIGNMENT) <= root
      && objHeader >= PTR_SIZE && slab >= PTR_SIZE && slab + objHeader <= PAGE
    }

    function UserOffset(): nat { AlignUp(objHeader, SLAB_MAX_ALIGNMENT) }

    function ObjStart(): nat { AlignUp(slab, SLAB_MAX_ALIGNMENT) }

    function SlotSize(c: nat): nat
      requires c < NUM_CACHES
    {
      UserOffset() + AlignUp(SIZE_CLASSES[c], SLAB_MAX_ALIGNMENT)
    }

    function Capacity(c: nat): nat
      requires c < NUM_CACHES && Plausible()
    {
      DivNonNegative(SLAB_SIZE - ObjStart(), SlotSize(c));
      (SLAB_SIZE - ObjStart()) / SlotSize(c)
    }

    /** The user address of slot `i` of the region at `region`. */
    function Slot(region: nat, c: nat, i: nat): nat
      requires c < NUM_CACHES
    {
      region + ObjStart() + i * SlotSize(c) + UserOffset()
    }
  }

  /** Size classes are multiples of the slab alignment, so rounding keeps them. */
  lemma ClassesAligned(sz: Sizes, c: nat)
    requires c < NUM_CACHES && sz.Plausible()
    ensures 16 <= SIZE_CLASSES[c] <= MAX_SLAB_OBJ_SIZE && sz.SlotSize(c) == sz.UserOffset() + SIZE_CLASSES[c]
    ensures sz.SlotSize(c) % SLAB_MAX_ALIGNMENT == 0
  {
    hide SizeToOrder;
    ClassMultiple(c);
    SumOfMultiples(sz.UserOffset(), SIZE_CLASSES[c]);
  }

  lemma ClassMultiple(c: nat)
    requires c < NUM_CACHES
    ensures SIZE_CLASSES[c] % 16 == 0 && 16 <= SIZE_CLASSES[c] <= 1024
  {
  }

  lemma SumOfMultiples(x: nat, y: nat)
    requires x % 16 == 0 && y % 16 == 0
    ensures (x + y) % 16 == 0
  {
  }

  /** Every slab has at least one slot and the last one ends inside the region. */
  lemma CapacityFits(sz: Sizes, c: nat)
    requires sz.Plausible() && c < NUM_CACHES
    ensures sz.Capacity(c) >= 1
    ensures sz.ObjStart() + sz.Capacity(c) * sz.SlotSize(c) <= SLAB_SIZE
  {
    ClassesAligned(sz, c);
    var room, slot := SLAB_SIZE - sz.ObjStart(), sz.SlotSize(c);
    hide AlignUp;
    QuotientFits(room, slot);
  }

  lemma QuotientFits(room: nat, slot: nat)
    requires 0 < slot <= room
    ensures room / slot >= 1 && room / slot * slot <= room
  {
    var q := room / slot;
    assert room == q * slot + room % slot;
    MulAtLeast(q, slot);
  }

  /** Slot `i` of a slab: aligned, its header and data inside the region, after the
      descriptor. */
  lemma SlotInside(sz: Sizes, region: nat, c: nat, i: nat)
    requires sz.Plausible() && c < NUM_CACHES && i < sz.Capacity(c)
    ensures var x := sz.Slot(region, c, i);
            && region + sz.ObjStart() + sz.UserOffset() <= x && x + SIZE_CLASSES[c] <= region + SLAB_SIZE
            && sz.UserOffset() >= sz.objHeader && sz.ObjStart() >= sz.slab
    ensures region % SLAB_MAX_ALIGNMENT == 0 ==> sz.Slot(region, c, i) % SLAB_MAX_ALIGNMENT == 0
  {
    ClassesAligned(sz, c);
    CapacityFits(sz, c);
    AlignUpAbove(sz.objHeader, SLAB_MAX_ALIGNMENT);
    AlignUpAbove(sz.slab, SLAB_MAX_ALIGNMENT);
    hide AlignUp, SizeToOrder, Sizes.Capacity, Sizes.SlotSize;
    var slot, n := sz.SlotSize(c), sz.Capacity(c);
    SplitProduct(n - 1 - i, i, slot);
    MulAtLeast(n - 1 - i, slot);
    MulAtLeast(i, slot);
    if region % SLAB_MAX_ALIGNMENT == 0 {
      SumAligned(region, sz.ObjStart(), i, slot, sz.UserOffset());
    }
  }

  lemma SplitProduct(a: nat, b: nat, s: nat)
    ensures (a + b + 1) * s == a * s + b * s + s
  {
  }

  lemma SumAligned(region: nat, start: nat, i: nat, slot: nat, offset: nat)
    requires region % 16 == 0 && start % 16 == 0 && slot % 16 == 0 && offset % 16 == 0
    ensures (region + start + i * slot + offset) % 16 == 0
  {
    assert i * slot == i * (16 * (slot / 16)) == 16 * (i * (slot / 16));
  }

  /** Different slots of a slab do not overlap. */
  lemma SlotsApart(sz: Sizes, region: nat, c: nat, i: nat, j: nat)
    requires c < NUM_CACHES && i < j
    ensures sz.Slot(region, c, i) + sz.SlotSize(c) <= sz.Slot(region, c, j)
  {
    MulStep(i, j, sz.SlotSize(c));
  }

  lemma MulStep(i: nat, j: nat, s: nat)
    requires i < j
    ensures i * s + s <= j * s
  {
    assert j * s == (j - i - 1) * s + (i + 1) * s;
  }

  /** The free list slab_create leaves after carving `k` slots: last one first. */
  function Carved(sz: Sizes, region: nat, c: nat, k: nat): (s: seq<nat>)
    requires c < NUM_CACHES
    ensures |s| == k
  {
    if k == 0 then [] else [sz.Slot(region, c, k - 1)] + Carved(sz, region, c, k - 1)
  }

  lemma {:induction false} CarvedIndex(sz: Sizes, region: nat, c: nat, k: nat, x: nat)
    requires c < NUM_CACHES
    ensures x in Carved(sz, region, c, k) <==> exists i: nat :: i < k && x == sz.Slot(region, c, i)
  {
    if k > 0 {
      CarvedIndex(sz, region, c, k - 1, x);
    }
  }

  lemma {:induction false} CarvedDistinct(sz: Sizes, region: nat, c: nat, k: nat)
    requires c < NUM_CACHES && sz.Plausible()
    ensures Distinct(Carved(sz, region, c, k))
  {
    if k > 0 {
      CarvedDistinct(sz, region, c, k - 1);
      ClassesAligned(sz, c);
      var last := sz.Slot(region, c, k - 1);
      CarvedIndex(sz, region, c, k - 1, last);
      forall i: nat | i < k - 1
        ensures sz.Slot(region, c, i) != last
      {
        SlotsApart(sz, region, c, i, k - 1);
      }
      ConsDistinct(last, Carved(sz, region, c, k - 1));
    }
  }

  lemma ConsDistinct(x: nat, s: seq<nat>)
    requires Distinct(s) && x !in s
    ensures Distinct([x] + s)
  {
  }

  /** All user addresses a slab can hand out. */
  function Slots(sz: Sizes, region: nat, c: nat): set<nat>
    requires c < NUM_CACHES && sz.Plausible()
  {
    Elems(Carved(sz, region, c, sz.Capacity(c)))
  }

  /** Slot `x` with its header and data lies inside the region, clear of the
      descriptor, and no other slot overlaps it. */
  lemma SlotFacts(sz: Sizes, region: nat, c: nat, x: nat)
    requires sz.Plausible() && c < NUM_CACHES && x in Slots(sz, region, c)
    ensures region + sz.ObjStart() + sz.UserOffset() <= x && x + SIZE_CLASSES[c] <= region + SLAB_SIZE
    ensures sz.UserOffset() >= sz.objHeader && sz.ObjStart() >= sz.slab > 0
    ensures region % SLAB_MAX_ALIGNMENT == 0 ==> x % SLAB_MAX_ALIGNMENT == 0
  {
    CarvedIndex(sz, region, c, sz.Capacity(c), x);
    var i: nat :| i < sz.Capacity(c) && x == sz.Slot(region, c, i);
    SlotInside(sz, region, c, i);
  }

  lemma SlotsDisjoint(sz: Sizes, region: nat, c: nat, x: nat, y: nat)
    requires sz.Plausible() && c < NUM_CACHES && x in Slots(sz, region, c) && y in Slots(sz, region, c) && x < y
    ensures x + SIZE_CLASSES[c] <= y - sz.UserOffset()
  {
    CarvedIndex(sz, region, c, sz.Capacity(c), x);
    CarvedIndex(sz, region, c, sz.Capacity(c), y);
    var i: nat :| i < sz.Capacity(c) && x == sz.Slot(region, c, i);
    var j: nat :| j < sz.Capacity(c) && y == sz.Slot(region, c, j);
    ClassesAligned(sz, c);
    if j < i {
      SlotsApart(sz, region, c, j, i);
    }
    SlotsApart(sz, region, c, i, j);
  }

  lemma SlotCount(sz: Sizes, region: nat, c: nat)
    requires sz.Plausible() && c < NUM_CACHES
    ensures |Slots(sz, region, c)| == sz.Capacity(c) >= 1
  {
    CarvedDistinct(sz, region, c, sz.Capacity(c));
    DistinctSize(Carved(sz, region, c, sz.Capacity(c)));
    CapacityFits(sz, c);
  }

  /** src/slab.c: get_cache. The first class that holds the request. */
  function CacheOf(size: nat): (c: nat)
    ensures size <= MAX_SLAB_OBJ_SIZE <==> c < NUM_CACHES
    ensures c < NUM_CACHES ==> size <= SIZE_CLASSES[c] && forall k :: 0 <= k < c ==> SIZE_CLASSES[k] < size
  {
    if size <= 16 then 0 else if size <= 32 then 1 else if size <= 64 then 2 else if size <= 128 then 3
    else if size <= 256 then 4 else if size <= 512 then 5 else if size <= 768 then 6 else if size <= 1024 then 7
    else 8
  }

  /** get_cache as the source writes it: a scan of the caches in order. */
  method GetCache(size: nat) returns (c: nat)
    ensures c == CacheOf(size)
  {
    c := 0;
    while c < NUM_CACHES
      invariant c <= NUM_CACHES && forall k :: 0 <= k < c ==> SIZE_CLASSES[k] < size
    {
      if size <= SIZE_CLASSES[c] {
        return;
      }
      c := c + 1;
    }
    assert SIZE_CLASSES[7] < size;
  }
}
