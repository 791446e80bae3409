/** src/utils/bzero.c and the byte loops of src/libc_wrappers.c: every fast form
    writes exactly the bytes the simple loop writes. Memory is an array of bytes;
    index 0 stands at address `base`. */
module ZeroFill {

  type Byte = x: nat | x < 256

  /** `s` with the bytes from `p` up to `p + n` set to `value`. */
  function Filled(s: seq<Byte>, p: nat, n: nat, value: Byte): (r: seq<Byte>)
    requires p + n <= |s|
    ensures |r| == |s|
    ensures forall k :: 0 <= k < |s| ==> r[k] == if p <= k < p + n then value else s[k]
  {
    s[..p] + seq(n, _ => value) + s[p + n..]
  }

  /** Filling two ranges that meet or overlap fills their union. */
  lemma FilledUnion(s: seq<Byte>, p: nat, n: nat, q: nat, m: nat, value: Byte)
    requires p + n <= |s| && q + m <= |s| && p <= q <= p + n
    ensures Filled(Filled(s, p, n, value), q, m, value) == Filled(s, p, if q + m <= p + n then n else q + m - p, value)
    ensures Filled(Filled(s, q, m, value), p, n, value) == Filled(s, p, if q + m <= p + n then n else q + m - p, value)
  {
  }

  /** src/libc_wrappers.c: sigma_libc_memset, the reference. */
  method Memset(m: array<Byte>, p: nat, value: Byte, n: nat)
    requires p + n <= m.Length
    modifies m
    ensures m[..] == Filled(old(m[..]), p, n, value)
  {
    for i := 0 to n
      invariant m[..] == Filled(old(m[..]), p, i, value)
    {
      m[p + i] := value;
    }
  }

  /** Where the forward loop takes byte `k` from: a destination that starts inside the
      source reads what the loop has written itself. */
  function CopiedFrom(to: nat, from: nat, k: nat): (r: nat)
    ensures from <= r <= from + k
    ensures !(from < to <= from + k) ==> r == from + k
  {
    if from < to && k >= to - from then CopiedFrom(to, from, k - (to - from)) else from + k
  }

  /** sigma_memcpy: a forward byte loop, for any two ranges. A copy of the source, unless
      the destination starts inside it; then the bytes before it repeat. */
  method Memcpy(m: array<Byte>, to: nat, from: nat, n: nat)
    requires to + n <= m.Length && from + n <= m.Length
    modifies m
    ensures forall k :: 0 <= k < n ==> m[to + k] == old(m[CopiedFrom(to, from, k)])
    ensures !(from < to < from + n) ==> m[to..to + n] == old(m[from..from + n])
    ensures forall k :: 0 <= k < m.Length && !(to <= k < to + n) ==> m[k] == old(m[k])
  {
    ghost var s := m[..];
    for i := 0 to n
      invariant forall k :: 0 <= k < i ==> m[to + k] == s[CopiedFrom(to, from, k)]
      invariant forall k :: 0 <= k < m.Length && !(to <= k < to + i) ==> m[k] == s[k]
    {
      assert from < to && i >= to - from ==> m[from + i] == m[to + (i - (to - from))];
      m[to + i] := m[from + i];
    }
    PlainCopy(s, m[..], to, from, n);
  }

  lemma PlainCopy(s: seq<Byte>, t: seq<Byte>, to: nat, from: nat, n: nat)
    requires to + n <= |t| && from + n <= |s|
    requires forall k: nat :: k < n ==> t[to + k] == s[CopiedFrom(to, from, k)]
    ensures !(from < to < from + n) ==> t[to..to + n] == s[from..from + n]
  {
    if !(from < to < from + n) {
      var copy := t[to..to + n];
      forall k: nat | k < |copy|
        ensures copy[k] == s[from + k]
      {
        assert CopiedFrom(to, from, k) == from + k && copy[k] == t[to + k];
      }
    }
  }

  /** One unaligned store of `width` zero bytes. */
  method Store(m: array<Byte>, p: nat, width: nat)
    requires p + width <= m.Length
    modifies m
    ensures m[..] == Filled(old(m[..]), p, width, 0)
  {
    forall k | p <= k < p + width {
      m[k] := 0;
    }
  }

  /** zero_small: two stores that overlap in the middle. */
  method ZeroSmall(m: array<Byte>, p: nat, n: nat)
    requires n < 16 && p + n <= m.Length
    modifies m
    ensures m[..] == Filled(old(m[..]), p, n, 0)
  {
    ghost var s := m[..];
    if n == 0 {
      return;
    }
    if n >= 8 {
      Store(m, p, 8);
      Store(m, p + n - 8, 8);
      return;
    }
    if n >= 4 {
      Store(m, p, 4);
      Store(m, p + n - 4, 4);
      return;
    }
    if n >= 2 {
      Store(m, p, 2);
      Store(m, p + n - 2, 2);
      return;
    }
    Store(m, p, 1);
  }

  lemma NextGroup(width: nat, count: nat, i: nat)
    requires i < count
    ensures width * (i + 1) == width * i + width && width * i + width <= width * count
  {
    assert width * count == width * i + width * (count - i);
  }

  /** `count` consecutive stores of one width, as the unrolled groups do. */
  method Stores(m: array<Byte>, p: nat, width: nat, count: nat)
    requires p + width * count <= m.Length
    modifies m
    ensures m[..] == Filled(old(m[..]), p, width * count, 0)
  {
    ghost var s := m[..];
    for i := 0 to count
      invariant p + width * i <= p + width * count
      invariant m[..] == Filled(s, p, width * i, 0)
    {
      NextGroup(width, count, i);
      ghost var done := width * i;
      FilledUnion(s, p, done, p + done, width, 0);
      Store(m, p + width * i, width);
    }
  }

  /** The bulk of zero_sse2 and zero_avx2: the last `step` bytes first, then groups of
      `step` bytes that may run into them. */
  method TailThenGroups(m: array<Byte>, start: nat, n: nat, width: nat, count: nat)
    requires width * count > 0 && n >= width * count && start + n <= m.Length
    modifies m
    ensures m[..] == Filled(old(m[..]), start, n, 0)
  {
    ghost var s := m[..];
    var step := width * count;
    var p, tail := start, start + n - step;
    Stores(m, tail, width, count);
    while p < tail
      invariant start <= p < tail + step
      invariant forall k :: 0 <= k < m.Length ==> m[k] == if start <= k < p || tail <= k < tail + step then 0 else s[k]
    {
      Stores(m, p, width, count);
      p := p + step;
    }
  }

  /** The first and the last `width * count` bytes of up to twice as many. */
  method HeadAndTail(m: array<Byte>, p: nat, n: nat, width: nat, count: nat)
    requires width * count <= n <= 2 * (width * count) && p + n <= m.Length
    modifies m
    ensures m[..] == Filled(old(m[..]), p, n, 0)
  {
    var step := width * count;
    FilledUnion(m[..], p, step, p + n - step, step, 0);
    Stores(m, p, width, count);
    Stores(m, p + n - step, width, count);
  }

  /** zero_sse2, for every length. */
  method ZeroSse2(m: array<Byte>, p: nat, n: nat)
    requires p + n <= m.Length
    modifies m
    ensures m[..] == Filled(old(m[..]), p, n, 0)
  {
    if n < 16 {
      ZeroSmall(m, p, n);
      return;
    }
    if n < 32 {
      HeadAndTail(m, p, n, 16, 1);
      return;
    }
    if n < 64 {
      HeadAndTail(m, p, n, 16, 2);
      return;
    }
    TailThenGroups(m, p, n, 16, 4);
  }

  /** zero_avx2, for every length. */
  method ZeroAvx2(m: array<Byte>, p: nat, n: nat)
    requires p + n <= m.Length
    modifies m
    ensures m[..] == Filled(old(m[..]), p, n, 0)
  {
    if n < 16 {
      ZeroSmall(m, p, n);
      return;
    }
    if n < 32 {
      HeadAndTail(m, p, n, 16, 1);
      return;
    }
    if n < 64 {
      HeadAndTail(m, p, n, 32, 1);
      return;
    }
    if n == 64 {
      Stores(m, p, 32, 2);
      return;
    }
    if n < 128 {
      HeadAndTail(m, p, n, 32, 2);
      return;
    }
    TailThenGroups(m, p, n, 32, 4);
  }

  const WORD_BYTES: nat := 8

  /** `t` is `s` zeroed from `start` up to `p`. */
  predicate ZeroedTo(s: seq<Byte>, t: seq<Byte>, start: nat, p: nat) {
    start <= p <= |s| && t == Filled(s, start, p - start, 0)
  }

  /** Storing the next `width * count` bytes extends what has been zeroed. */
  method StoreNext(m: array<Byte>, ghost s: seq<Byte>, start: nat, p: nat, width: nat, count: nat)
    requires p + width * count <= m.Length == |s| && ZeroedTo(s, m[..], start, p)
    modifies m
    ensures ZeroedTo(s, m[..], start, p + width * count)
  {
    FilledUnion(s, start, p - start, p, width * count, 0);
    Stores(m, p, width, count);
  }

  predicate WordAligned(base: nat, p: nat) {
    (base + p) % WORD_BYTES == 0
  }

  lemma NextWordAligned(base: nat, p: nat, k: nat)
    requires WordAligned(base, p)
    ensures WordAligned(base, p + WORD_BYTES * k)
  {
    var q := (base + p) / WORD_BYTES;
    assert base + (p + WORD_BYTES * k) == WORD_BYTES * (q + k);
    MultipleOfWord(q + k);
  }

  lemma MultipleOfWord(q: nat)
    ensures (WORD_BYTES * q) % WORD_BYTES == 0
  {
  }

  /** `count` word stores in a row: only ever at an aligned address. */
  method StoreWords(m: array<Byte>, ghost s: seq<Byte>, base: nat, start: nat, p: nat, count: nat)
    requires WordAligned(base, p)
    requires p + WORD_BYTES * count <= m.Length == |s| && ZeroedTo(s, m[..], start, p)
    modifies m
    ensures ZeroedTo(s, m[..], start, p + WORD_BYTES * count) && WordAligned(base, p + WORD_BYTES * count)
  {
    NextWordAligned(base, p, count);
    StoreNext(m, s, start, p, WORD_BYTES, count);
  }

  /** zero_words: bytes up to a word boundary, eight words at a time, single words,
      and the bytes that remain. Words are stored by StoreWords,
      which accepts aligned addresses only. */
  method ZeroWords(m: array<Byte>, base: nat, start: nat, length: nat)
    requires start + length <= m.Length
    modifies m
    ensures m[..] == Filled(old(m[..]), start, length, 0)
  {
    ghost var s := m[..];
    assert ZeroedTo(s, m[..], start, start);
    hide WordAligned, ZeroedTo, Filled;
    var p: nat, n: nat := start, length;
    while n != 0 && !WordAligned(base, p)
      invariant p + n == start + length && ZeroedTo(s, m[..], start, p)
      decreases n
    {
      StoreNext(m, s, start, p, 1, 1);
      p, n := p + 1, n - 1;
    }
    while n >= 8 * WORD_BYTES
      invariant p + n == start + length && ZeroedTo(s, m[..], start, p) && (n != 0 ==> WordAligned(base, p))
    {
      StoreWords(m, s, base, start, p, 8);
      p, n := p + 64, n - 64;
    }
    WordsThenBytes(m, s, base, start, p, n);
    ZeroedAll(s, m[..], start, length);
  }

  /** The last two loops of zero_words: single words, then the bytes that remain. */
  method WordsThenBytes(m: array<Byte>, ghost s: seq<Byte>, base: nat, start: nat, p0: nat, n0: nat)
    requires p0 + n0 <= m.Length == |s| && ZeroedTo(s, m[..], start, p0) && (n0 != 0 ==> WordAligned(base, p0))
    modifies m
    ensures ZeroedTo(s, m[..], start, p0 + n0)
  {
    hide WordAligned, ZeroedTo, Filled;
    var p: nat, n: nat := p0, n0;
    while n >= WORD_BYTES
      invariant p + n == p0 + n0 && ZeroedTo(s, m[..], start, p) && (n != 0 ==> WordAligned(base, p))
    {
      StoreWords(m, s, base, start, p, 1);
      p, n := p + WORD_BYTES, n - WORD_BYTES;
    }
    while n != 0
      invariant p + n == p0 + n0 && ZeroedTo(s, m[..], start, p)
    {
      StoreNext(m, s, start, p, 1, 1);
      p, n := p + 1, n - 1;
    }
  }

  lemma ZeroedAll(s: seq<Byte>, t: seq<Byte>, start: nat, length: nat)
    requires ZeroedTo(s, t, start, start + length)
    ensures start + length <= |s| && t == Filled(s, start, length, 0)
  {
  }

  /** fill_zero: whichever implementation is selected, the effect is that of Memset
      with 0, for every address and length. */
  method FillZero(m: array<Byte>, base: nat, p: nat, n: nat, avx2: bool)
    requires p + n <= m.Length
    modifies m
    ensures m[..] == Filled(old(m[..]), p, n, 0)
  {
    if n < 16 || n >= 64 * 1024 {
      ZeroWords(m, base, p, n);
      return;
    }
    if avx2 {
      ZeroAvx2(m, p, n);
    } else {
      ZeroSse2(m, p, n);
    }
  }
}
