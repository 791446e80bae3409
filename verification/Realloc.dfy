/** The contents of memory: users' bytes lie clear of everything the allocator stores,
    so sigma_realloc and sigma_calloc (src/sigma_malloc.c) do what they promise
    whatever the allocator splits, carves, drains or maps inside. */
module Realloc {
  import opened Words
  import opened ArenaCalls
  import opened Sigma
  import opened SigmaTheorems
  import opened SigmaFrees
  import opened SigmaStores

  /** Contents of memory by address. */
  type Memory = nat -> nat

  /** sigma_alloc changes only the bytes it stores to. */
  ghost predicate AllocWrites(s: Sigma, size: nat, alignment: nat, o: Offers, m: Memory, n: Memory)
    requires LocalInv(s.local) && s.shape.Plausible() && size < WORD && alignment < WORD
  {
    forall addr: nat :: !SigmaAllocStores(s, size, alignment, o, addr) ==> n(addr) == m(addr)
  }

  ghost predicate FreeWrites(s: Sigma, x: nat, here: bool, m: Memory, n: Memory)
    requires SigmaInv(s) && IsUser(s, x)
  {
    forall addr: nat :: !SigmaFreeStores(s, x, here, addr) ==> n(addr) == m(addr)
  }

  /** What a debug build notes about the allocation `x`. */
  ghost predicate RecordWrites(s: Sigma, x: nat, m: Memory, n: Memory) {
    forall addr: nat :: !RecordStores(s, x, addr) ==> n(addr) == m(addr)
  }

  /** The `len` bytes at `lo` are the same in both memories. */
  ghost predicate SameBytes(m: Memory, n: Memory, lo: nat, len: nat) {
    forall addr: nat :: lo <= addr < lo + len ==> n(addr) == m(addr)
  }

  /** The `len` bytes at `to` in `n` are those at `from` in `m`. */
  ghost predicate MovedBytes(m: Memory, from: nat, n: Memory, to: nat, len: nat) {
    forall addr: nat :: to <= addr < to + len ==> n(addr) == m(from + (addr - to))
  }

  ghost predicate ZeroBytes(m: Memory, lo: nat, len: nat) {
    forall addr: nat :: lo <= addr < lo + len ==> m(addr) == 0
  }

  /** Whoever holds a pointer while somebody allocates finds its bytes unchanged. */
  lemma HeldAcrossAlloc(s: Sigma, size: nat, alignment: nat, o: Offers, m: Memory, n: Memory, y: nat)
    requires SigmaInv(s) && size < WORD && alignment < WORD && IsUser(s, y)
    requires LocalInv(s.local) && s.shape.Plausible() && AllocWrites(s, size, alignment, o, m, n)
    ensures SameBytes(m, n, y, SizeOf(s, y))
  {
    hide SigmaInv, LocalInv, IsUser, SigmaAllocStores, SizeOf;
    forall addr: nat | y <= addr < y + SizeOf(s, y)
      ensures n(addr) == m(addr)
    {
      AllocStoresClear(s, size, alignment, o, y, addr);
    }
  }

  /** And while somebody frees another pointer, from whatever thread. */
  lemma HeldAcrossFree(s: Sigma, x: nat, here: bool, m: Memory, n: Memory, y: nat)
    requires SigmaInv(s) && IsUser(s, x) && IsUser(s, y) && x != y && FreeWrites(s, x, here, m, n)
    ensures SameBytes(m, n, y, SizeOf(s, y))
  {
    hide SigmaInv, IsUser, SigmaFreeStores, SizeOf;
    forall addr: nat | y <= addr < y + SizeOf(s, y)
      ensures n(addr) == m(addr)
    {
      FreeStoresClear(s, x, here, y, addr);
    }
  }

  lemma HeldAcrossRecord(s: Sigma, x: nat, m: Memory, n: Memory, y: nat)
    requires SigmaInv(s) && IsUser(s, x) && IsUser(s, y) && RecordWrites(s, x, m, n)
    ensures SameBytes(m, n, y, SizeOf(s, y))
  {
    hide SigmaInv, IsUser, RecordStores, SizeOf;
    forall addr: nat | y <= addr < y + SizeOf(s, y)
      ensures n(addr) == m(addr)
    {
      RecordClear(s, x, y, addr);
    }
  }

  // ------------------------------------------------------- sigma_realloc

  datatype Reallocated = ReallocPanics | Result(sigma: Sigma, ptr: nat)

  function SigmaRealloc(s: Sigma, ptr: nat, newSize: nat, alignment: nat, o: Offers): Reallocated
    requires SigmaInv(s) && newSize < WORD && alignment < WORD && (ptr != 0 ==> IsUser(s, ptr))
  {
    InvShape(s);
    if ptr == 0 then
      var (t, p) := SigmaAlloc(s, newSize, alignment, o);
      Result(t, p)
    else if newSize == 0 then
      match SigmaFree(s, ptr, true)
      case Panics => ReallocPanics
      case Done(t) => Result(t, 0)
    else
      var (t, p) := SigmaAlloc(s, newSize, alignment, o);
      if p == 0 then Result(t, 0)
      else
        SigmaAllocSound(s, newSize, alignment, o);
        match SigmaFree(t, ptr, true)
        case Panics => ReallocPanics
        case Done(u) => Result(u, p)
  }

  /** copy_size of sigma_realloc. */
  function CopySize(oldSize: nat, stored: nat, newSize: nat): nat {
    var n := if stored < newSize then stored else newSize;
    if oldSize < n then oldSize else n
  }

  /** sigma_memcpy of `n` bytes, for ranges that are apart. */
  function Copied(m: Memory, to: nat, from: nat, n: nat): Memory {
    (addr: nat) => if to <= addr < to + n then m(from + (addr - to)) else m(addr)
  }

  /** Users hold in `t` what they held in `s`, but `x` for `ptr`. */
  ghost predicate Swapped(s: Sigma, t: Sigma, ptr: nat, x: nat) {
    && !IsUser(s, x) && IsUser(t, x) && !IsUser(t, ptr)
    && (forall y: nat :: IsUser(s, y) && y != ptr ==> IsUser(t, y) && KeepsUser(s, t, y))
    && (forall y: nat :: IsUser(t, y) ==> IsUser(s, y) || y == x)
  }

  /** Users hold in `t` what they held in `s`. */
  ghost predicate SameUsers(s: Sigma, t: Sigma) {
    && (forall y: nat :: IsUser(s, y) ==> IsUser(t, y) && KeepsUser(s, t, y))
    && (forall y: nat :: IsUser(t, y) ==> IsUser(s, y))
  }

  lemma KeepsTwice(s: Sigma, t: Sigma, u: Sigma, y: nat)
    requires KeepsUser(s, t, y) && KeepsUser(t, u, y)
    ensures KeepsUser(s, u, y)
  {
  }

  lemma SwapSteps(s: Sigma, t: Sigma, u: Sigma, ptr: nat, x: nat, size: nat, alignment: nat)
    requires HandedToUser(s, t, x, size, alignment) && TakenBack(t, u, ptr) && x != 0 && IsUser(s, ptr)
    ensures Swapped(s, u, ptr, x) && SizeOf(u, x) == size && x % alignment == 0 && x != ptr
  {
    hide IsUser, KeepsUser, SizeOf;
    assert KeepsUser(t, u, x);
    SameSize(t, u, x);
    forall y: nat | IsUser(s, y) && y != ptr
      ensures IsUser(u, y) && KeepsUser(s, u, y)
    {
      KeepsTwice(s, t, u, y);
    }
  }

  /** What sigma_realloc does for a pointer and a size that are not zero. */
  lemma ReallocIs(s: Sigma, ptr: nat, newSize: nat, alignment: nat, o: Offers)
    requires SigmaInv(s) && 0 < newSize < WORD && alignment < WORD && ptr != 0 && IsUser(s, ptr)
    ensures LocalInv(s.local) && s.shape.Plausible()
    ensures var (t, p) := SigmaAlloc(s, newSize, alignment, o);
            && SigmaInv(t) && HandedToUser(s, t, p, newSize, alignment) && IsUser(t, ptr)
            && SigmaFree(t, ptr, true).Done?
            && SigmaInv(SigmaFree(t, ptr, true).sigma) && TakenBack(t, SigmaFree(t, ptr, true).sigma, ptr)
            && SigmaRealloc(s, ptr, newSize, alignment, o) == if p == 0 then Result(t, 0)
                 else Result(SigmaFree(t, ptr, true).sigma, p)
  {
    InvShape(s);
    hide SigmaInv, SigmaAlloc, SigmaFree, IsUser, HandedToUser, TakenBack;
    SigmaAllocSound(s, newSize, alignment, o);
    var (t, p) := SigmaAlloc(s, newSize, alignment, o);
    KeepsHeld(s, t, p, newSize, alignment, ptr);
    SigmaFreeSound(t, ptr, true);
  }

  /** A successful realloc swaps old for new in users' hands and changes nothing else; a
      failed one leaves the old pointer held, and all others. It never panics. */
  lemma ReallocSwaps(s: Sigma, ptr: nat, newSize: nat, alignment: nat, o: Offers)
    requires SigmaInv(s) && 0 < newSize < WORD && alignment < WORD && ptr != 0 && IsUser(s, ptr)
    ensures var r := SigmaRealloc(s, ptr, newSize, alignment, o);
            && r.Result? && SigmaInv(r.sigma)
            && (r.ptr == 0 ==> SameUsers(s, r.sigma))
            && (r.ptr != 0 ==> Swapped(s, r.sigma, ptr, r.ptr) && SizeOf(r.sigma, r.ptr) == newSize
                               && alignment > 0 && r.ptr % alignment == 0)
  {
    ReallocIs(s, ptr, newSize, alignment, o);
    hide SigmaInv, SigmaAlloc, SigmaFree, SigmaRealloc, IsUser, SizeOf, HandedToUser, Swapped, SameUsers, TakenBack;
    var (t, p) := SigmaAlloc(s, newSize, alignment, o);
    FirstHeld(s, t, p, newSize, alignment);
    if p != 0 {
      SwapSteps(s, t, SigmaFree(t, ptr, true).sigma, ptr, p, newSize, alignment);
    }
  }

  lemma FirstHeld(s: Sigma, t: Sigma, x: nat, size: nat, alignment: nat)
    requires HandedToUser(s, t, x, size, alignment)
    ensures (x == 0 ==> SameUsers(s, t)) && (x != 0 ==> alignment > 0)
  {
    hide IsUser, KeepsUser, SizeOf;
  }

  /** Realloc preserves contents across tiers: with `before` the memory at the call,
      `between` after the inner allocation, `noted` once a debug build has copied its
      record and `after` at the end, the new pointer starts with the first min(old size,
      stored size, new size) bytes of the old one, and every other pointer keeps its
      bytes. */
  lemma ReallocPreserves(s: Sigma, ptr: nat, oldSize: nat, newSize: nat, alignment: nat, o: Offers,
                         before: Memory, between: Memory, noted: Memory, after: Memory)
    requires SigmaInv(s) && 0 < newSize < WORD && alignment < WORD && ptr != 0 && IsUser(s, ptr)
    requires LocalInv(s.local) && s.shape.Plausible() && AllocWrites(s, newSize, alignment, o, before, between)
    requires var (t, p) := SigmaAlloc(s, newSize, alignment, o);
             && p != 0 && SigmaInv(t) && IsUser(t, ptr) && RecordWrites(t, p, between, noted)
             && FreeWrites(t, ptr, true, Copied(noted, p, ptr, CopySize(oldSize, SizeOf(s, ptr), newSize)), after)
    ensures var r := SigmaRealloc(s, ptr, newSize, alignment, o);
            && r.Result? && r.ptr == SigmaAlloc(s, newSize, alignment, o).1
            && MovedBytes(before, ptr, after, r.ptr, Min(oldSize, Min(SizeOf(s, ptr), newSize)))
    ensures forall y: nat :: IsUser(s, y) && y != ptr ==> SameBytes(before, after, y, SizeOf(s, y))
  {
    hide SigmaInv, LocalInv, SigmaAlloc, SigmaFree, SigmaRealloc, IsUser, SizeOf, AllocWrites, RecordWrites, FreeWrites,
      HandedToUser, TakenBack, KeepsUser, SameBytes, MovedBytes;
    ReallocIs(s, ptr, newSize, alignment, o);
    var n := CopySize(oldSize, SizeOf(s, ptr), newSize);
    ContentsMove(s, ptr, n, newSize, alignment, o, before, between, noted, after);
    forall y: nat | IsUser(s, y) && y != ptr
      ensures SameBytes(before, after, y, SizeOf(s, y))
    {
      OthersKept(s, ptr, n, newSize, alignment, o, before, between, noted, after, y);
    }
  }

  /** The bytes of `y` up to the copy. */
  lemma KeptToCopy(s: Sigma, size: nat, alignment: nat, o: Offers, before: Memory, between: Memory, noted: Memory,
                   y: nat)
    requires SigmaInv(s) && size < WORD && alignment < WORD && IsUser(s, y)
    requires LocalInv(s.local) && s.shape.Plausible() && AllocWrites(s, size, alignment, o, before, between)
    requires var (t, p) := SigmaAlloc(s, size, alignment, o);
             p != 0 && SigmaInv(t) && HandedToUser(s, t, p, size, alignment) && RecordWrites(t, p, between, noted)
    ensures SameBytes(before, noted, y, SizeOf(s, y))
  {
    hide SigmaInv, LocalInv, SigmaAlloc, IsUser, SizeOf, AllocWrites, RecordWrites, HandedToUser;
    var (t, p) := SigmaAlloc(s, size, alignment, o);
    HeldAcrossAlloc(s, size, alignment, o, before, between, y);
    KeepsHeld(s, t, p, size, alignment, y);
    NowHeld(s, t, p, size, alignment);
    HeldAcrossRecord(t, p, between, noted, y);
  }

  lemma ContentsMove(s: Sigma, ptr: nat, n: nat, size: nat, alignment: nat, o: Offers,
                     before: Memory, between: Memory, noted: Memory, after: Memory)
    requires SigmaInv(s) && size < WORD && alignment < WORD && IsUser(s, ptr) && n <= SizeOf(s, ptr) && n <= size
    requires LocalInv(s.local) && s.shape.Plausible() && AllocWrites(s, size, alignment, o, before, between)
    requires var (t, p) := SigmaAlloc(s, size, alignment, o);
             && p != 0 && SigmaInv(t) && HandedToUser(s, t, p, size, alignment) && RecordWrites(t, p, between, noted)
             && IsUser(t, ptr) && FreeWrites(t, ptr, true, Copied(noted, p, ptr, n), after)
    ensures MovedBytes(before, ptr, after, SigmaAlloc(s, size, alignment, o).1, n)
  {
    hide SigmaInv, LocalInv, SigmaAlloc, IsUser, SizeOf, AllocWrites, RecordWrites, FreeWrites, HandedToUser, Copied,
      SameBytes, MovedBytes;
    var (t, p) := SigmaAlloc(s, size, alignment, o);
    KeptToCopy(s, size, alignment, o, before, between, noted, ptr);
    KeepsHeld(s, t, p, size, alignment, ptr);
    NowHeld(s, t, p, size, alignment);
    HeldAcrossFree(t, ptr, true, Copied(noted, p, ptr, n), after, p);
    BytesMove(before, noted, after, ptr, p, n, SizeOf(s, ptr), size);
  }

  lemma BytesMove(before: Memory, noted: Memory, after: Memory, ptr: nat, p: nat, n: nat, held: nat, size: nat)
    requires SameBytes(before, noted, ptr, held) && SameBytes(Copied(noted, p, ptr, n), after, p, size) && n <= held
    requires n <= size
    ensures MovedBytes(before, ptr, after, p, n)
  {
  }

  lemma OthersKept(s: Sigma, ptr: nat, n: nat, size: nat, alignment: nat, o: Offers,
                   before: Memory, between: Memory, noted: Memory, after: Memory, y: nat)
    requires SigmaInv(s) && size < WORD && alignment < WORD && IsUser(s, ptr) && n <= size && IsUser(s, y) && y != ptr
    requires LocalInv(s.local) && s.shape.Plausible() && AllocWrites(s, size, alignment, o, before, between)
    requires var (t, p) := SigmaAlloc(s, size, alignment, o);
             && p != 0 && SigmaInv(t) && HandedToUser(s, t, p, size, alignment) && RecordWrites(t, p, between, noted)
             && IsUser(t, ptr) && FreeWrites(t, ptr, true, Copied(noted, p, ptr, n), after)
    ensures SameBytes(before, after, y, SizeOf(s, y))
  {
    hide SigmaInv, LocalInv, SigmaAlloc, IsUser, SizeOf, AllocWrites, RecordWrites, FreeWrites, HandedToUser, Copied,
      SameBytes;
    var (t, p) := SigmaAlloc(s, size, alignment, o);
    KeptToCopy(s, size, alignment, o, before, between, noted, y);
    KeepsHeld(s, t, p, size, alignment, y);
    NowHeld(s, t, p, size, alignment);
    HeldAcrossFree(t, ptr, true, Copied(noted, p, ptr, n), after, y);
    UserBytesApart(t, p, y);
    BytesStay(before, noted, after, ptr, p, n, y, SizeOf(s, y));
  }

  lemma BytesStay(before: Memory, noted: Memory, after: Memory, ptr: nat, p: nat, n: nat, y: nat, size: nat)
    requires SameBytes(before, noted, y, size) && SameBytes(Copied(noted, p, ptr, n), after, y, size)
    requires p + n <= y || y + size <= p
    ensures SameBytes(before, after, y, size)
  {
  }

  lemma UserBytesApart(s: Sigma, x: nat, y: nat)
    requires SigmaInv(s) && IsUser(s, x) && IsUser(s, y) && x != y
    ensures x + SizeOf(s, x) <= y || y + SizeOf(s, y) <= x
  {
    hide SigmaInv, IsUser, SizeOf, UserLow, UserHigh;
    UsersApart(s, x, y);
    UserHolds(s, x);
    UserHolds(s, y);
  }

  /** A failed realloc leaves the old bytes, and everyone's, as they were. */
  lemma FailedReallocKeeps(s: Sigma, ptr: nat, newSize: nat, alignment: nat, o: Offers, before: Memory, after: Memory,
                           y: nat)
    requires SigmaInv(s) && 0 < newSize < WORD && alignment < WORD && ptr != 0 && IsUser(s, ptr) && IsUser(s, y)
    requires var r := SigmaRealloc(s, ptr, newSize, alignment, o); r.Result? && r.ptr == 0
    requires LocalInv(s.local) && s.shape.Plausible() && AllocWrites(s, newSize, alignment, o, before, after)
    ensures var t := SigmaRealloc(s, ptr, newSize, alignment, o).sigma; IsUser(t, ptr) && IsUser(t, y)
    ensures SameBytes(before, after, y, SizeOf(s, y))
  {
    hide SigmaInv, LocalInv, SigmaAlloc, SigmaFree, SigmaRealloc, IsUser, SizeOf, AllocWrites, HandedToUser, TakenBack;
    ReallocIs(s, ptr, newSize, alignment, o);
    var t := SigmaAlloc(s, newSize, alignment, o).0;
    KeepsHeld(s, t, 0, newSize, alignment, y);
    KeepsHeld(s, t, 0, newSize, alignment, ptr);
    HeldAcrossAlloc(s, newSize, alignment, o, before, after, y);
  }

  // ------------------------------------------------------- sigma_calloc

  /** The overflow test of sigma_calloc refuses exactly the products that do not fit. */
  predicate ProductOverflows(count: nat, size: nat) {
    size != 0 && count > (WORD - 1) / size
  }

  lemma ProductOverflowsIff(count: nat, size: nat)
    ensures ProductOverflows(count, size) <==> count * size >= WORD
  {
    if size != 0 {
      var q := (WORD - 1) / size;
      assert WORD - 1 == q * size + (WORD - 1) % size;
      MulAtLeast(count - q, size);
      assert (count - q) * size == count * size - q * size;
      if count <= q {
        MulNotPositive(count - q, size);
      }
    }
  }

  lemma MulNotPositive(k: int, d: nat)
    requires k <= 0
    ensures k * d <= 0
  {
  }

  /** sigma_calloc clears everything but large allocations from a zeroing source. */
  predicate Clears(s: Sigma, x: nat, returnsZeroed: bool) {
    !returnsZeroed || x !in s.large
  }

  function Zeroed(m: Memory, x: nat, n: nat): Memory {
    (addr: nat) => if x <= addr < x + n then 0 else m(addr)
  }

  /** A successful sigma_calloc returns `count * size` zero bytes and leaves every other
      pointer's bytes as they were. It may leave a large allocation of a zeroing source
      as it is, for nothing is stored to its bytes while it is made. */
  lemma CallocZeroes(s: Sigma, count: nat, size: nat, total: nat, alignment: nat, o: Offers, returnsZeroed: bool,
                     before: Memory, between: Memory)
    requires SigmaInv(s) && alignment < WORD && !ProductOverflows(count, size) && total == count * size < WORD
    requires LocalInv(s.local) && s.shape.Plausible() && AllocWrites(s, total, alignment, o, before, between)
    requires var (t, p) := SigmaAlloc(s, total, alignment, o);
             p != 0 && (returnsZeroed && p in t.large ==> ZeroBytes(before, t.large[p].lo, t.large[p].bytes))
    ensures var (t, p) := SigmaAlloc(s, total, alignment, o);
            var after := if Clears(t, p, returnsZeroed) then Zeroed(between, p, total) else between;
            && SigmaInv(t) && IsUser(t, p) && SizeOf(t, p) == count * size && ZeroBytes(after, p, total)
            && forall y: nat :: IsUser(s, y) ==> SameBytes(before, after, y, SizeOf(s, y))
  {
    hide SigmaInv, LocalInv, SigmaAlloc, IsUser, SizeOf, AllocWrites, HandedToUser, KeepsUser, ProductOverflows,
      SameBytes, ZeroBytes;
    SigmaAllocSound(s, total, alignment, o);
    var (t, p) := SigmaAlloc(s, total, alignment, o);
    NowHeld(s, t, p, total, alignment);
    ZeroedIsZero(between, p, total);
    if !Clears(t, p, returnsZeroed) {
      StillZero(s, total, alignment, o, before, between);
    }
    forall y: nat | IsUser(s, y)
      ensures SameBytes(before, between, y, SizeOf(s, y))
      ensures SameBytes(before, Zeroed(between, p, total), y, SizeOf(s, y))
    {
      KeepsHeld(s, t, p, total, alignment, y);
      HeldAcrossAlloc(s, total, alignment, o, before, between, y);
      UserBytesApart(t, p, y);
      ZeroedElsewhere(before, between, p, total, y, SizeOf(s, y));
    }
  }

  /** Zero bytes of a mapping are still zero when sigma_alloc hands it out. */
  lemma StillZero(s: Sigma, size: nat, alignment: nat, o: Offers, before: Memory, between: Memory)
    requires SigmaInv(s) && size < WORD && alignment < WORD
    requires LocalInv(s.local) && s.shape.Plausible() && AllocWrites(s, size, alignment, o, before, between)
    requires var (t, p) := SigmaAlloc(s, size, alignment, o);
             p != 0 && SigmaInv(t) && IsUser(t, p) && SizeOf(t, p) == size && p in t.large
               && ZeroBytes(before, t.large[p].lo, t.large[p].bytes)
    ensures ZeroBytes(between, SigmaAlloc(s, size, alignment, o).1, size)
  {
    hide SigmaInv, LocalInv, SigmaAlloc, IsUser, SizeOf, SigmaAllocStores;
    var (t, p) := SigmaAlloc(s, size, alignment, o);
    UserHolds(t, p);
    forall addr: nat | p <= addr < p + size
      ensures between(addr) == 0
    {
      FreshBytesClear(s, size, alignment, o, addr);
    }
  }

  lemma ZeroedIsZero(m: Memory, x: nat, n: nat)
    ensures ZeroBytes(Zeroed(m, x, n), x, n)
  {
  }

  lemma ZeroedElsewhere(m: Memory, n: Memory, x: nat, len: nat, y: nat, size: nat)
    requires SameBytes(m, n, y, size) && (x + len <= y || y + size <= x)
    ensures SameBytes(m, Zeroed(n, x, len), y, size)
  {
  }
}
