/** Machine arithmetic shared by every module: powers of two, 64-bit words, the
    bitwise operations of include/common.h, and small sequence and chain lemmas. */
module Words {

  datatype Option<T> = None | Some(value: T)

  const PAGE: nat := 4096
  const MIN_ORDER: nat := 12

  /** The number of values of a 64-bit `usize`; SIZE_MAX is one less. */
  const WORD: nat := 0x1_0000_0000_0000_0000

  function Min(a: nat, b: nat): nat {
    if a < b then a else b
  }

  function Pow2(n: nat): (r: nat)
    ensures r >= 1
  {
    if n == 0 then 1 else 2 * Pow2(n - 1)
  }

  lemma Pow2Monotone(m: nat, n: nat)
    requires m <= n
    ensures Pow2(m) <= Pow2(n)
    ensures m < n ==> 2 * Pow2(m) <= Pow2(n)
  {
    if m < n {
      Pow2Monotone(m, n - 1);
    }
  }

  lemma Pow2Add(m: nat, n: nat)
    ensures Pow2(m + n) == Pow2(m) * Pow2(n)
  {
    if m > 0 {
      Pow2Add(m - 1, n);
      assert Pow2(m) * Pow2(n) == 2 * (Pow2(m - 1) * Pow2(n));
    }
  }

  lemma Pow2Values()
    ensures Pow2(12) == PAGE
    ensures Pow2(64) == WORD
  {
    assert Pow2(4) == 16;
    hide Pow2;
    Pow2Add(4, 4);
    Pow2Add(8, 4);
    Pow2Add(8, 8);
    Pow2Add(16, 16);
    Pow2Add(32, 32);
  }

  // ------------------------------------------------------------------ bits

  /** Bitwise and of two naturals. */
  function BitAnd(x: nat, y: nat): nat {
    if x == 0 || y == 0 then 0
    else 2 * BitAnd(x / 2, y / 2) + (if x % 2 == 1 && y % 2 == 1 then 1 else 0)
  }

  /** Bitwise complement of a word of `bits` bits. */
  function BitNot(bits: nat, x: nat): nat
    requires x < Pow2(bits)
  {
    Pow2(bits) - 1 - x
  }

  lemma ModHalf(y: nat, a: nat)
    requires a > 0
    ensures y % (2 * a) == 2 * (y / 2 % a) + y % 2
  {
    var q, r := y / 2 / a, y / 2 % a;
    assert y == 2 * (q * a + r) + y % 2;
    assert y == q * (2 * a) + (2 * r + y % 2);
    DivModUnique(y, 2 * a, q, 2 * r + y % 2);
  }

  lemma MulAtLeast(q: int, d: int)
    requires d > 0
    ensures q >= 1 ==> q * d >= d
    ensures q <= -1 ==> q * d <= -d
  {
  }

  lemma DivModUnique(x: int, d: int, q: int, r: int)
    requires d > 0 && 0 <= r < d && x == q * d + r
    ensures x / d == q && x % d == r
  {
    var k := q - x / d;
    assert k * d == q * d - x / d * d;
    MulAtLeast(k, d);
  }

  lemma DivNonNegative(x: nat, d: nat)
    requires d > 0
    ensures x / d >= 0
  {
    hide Pow2;
  }

  /** Masking with the complement of 2^k - 1 clears exactly the low k bits. */
  lemma {:induction false} MaskClearsLowBits(bits: nat, y: nat, k: nat)
    requires k <= bits && y < Pow2(bits)
    ensures Pow2(k) <= Pow2(bits)
    ensures BitAnd(y, BitNot(bits, Pow2(k) - 1)) == y - y % Pow2(k)
  {
    Pow2Monotone(k, bits);
    var mask := BitNot(bits, Pow2(k) - 1);
    if bits == 0 {
      assert y == 0;
    } else if k == 0 {
      AndAllOnes(bits, y);
    } else {
      MaskClearsLowBits(bits - 1, y / 2, k - 1);
      assert mask == 2 * (Pow2(bits - 1) - Pow2(k - 1)) && mask / 2 == BitNot(bits - 1, Pow2(k - 1) - 1);
      ModHalf(y, Pow2(k - 1));
      if y != 0 && mask == 0 {
        assert k == bits by { if k < bits { Pow2Monotone(k, bits); } }
        assert y % Pow2(k) == y;
      }
    }
  }

  lemma {:induction false} AndAllOnes(bits: nat, y: nat)
    requires y < Pow2(bits)
    ensures BitAnd(y, Pow2(bits) - 1) == y
  {
    if bits > 0 {
      AndAllOnes(bits - 1, y / 2);
      assert (Pow2(bits) - 1) / 2 == Pow2(bits - 1) - 1;
    }
  }

  ghost predicate IsPow2(a: nat) {
    exists k: nat :: a == Pow2(k)
  }

  /** include/common.h: sigma_alignment_is_valid. */
  predicate AlignmentIsValid(alignment: nat) {
    alignment != 0 && BitAnd(alignment, alignment - 1) == 0
  }

  /** The bit trick accepts exactly the powers of two. */
  lemma {:induction false} AlignmentValidIffPow2(a: nat)
    ensures AlignmentIsValid(a) <==> IsPow2(a)
  {
    if a == 0 {
    } else if a == 1 {
      assert Pow2(0) == 1;
    } else if a % 2 == 1 {
      AndPositive(a / 2);
      assert BitAnd(a, a - 1) == 2 * BitAnd(a / 2, a / 2);
      forall k: nat ensures a != Pow2(k) { }
    } else {
      AlignmentValidIffPow2(a / 2);
      assert (a - 1) / 2 == a / 2 - 1;
      assert BitAnd(a, a - 1) == 2 * BitAnd(a / 2, a / 2 - 1);
      if IsPow2(a / 2) {
        var k: nat :| a / 2 == Pow2(k);
        assert a == Pow2(k + 1);
      }
      if IsPow2(a) {
        var k: nat :| a == Pow2(k);
        assert a / 2 == Pow2(k - 1);
      }
    }
  }

  lemma {:induction false} AndPositive(x: nat)
    requires x > 0
    ensures BitAnd(x, x) > 0
  {
    if x % 2 == 0 {
      AndPositive(x / 2);
    }
  }

  /** include/common.h: ALIGN_UP on 64-bit words, wrap-around included. */
  function AlignUpWord(x: nat, a: nat): nat
    requires x < WORD && 0 < a < WORD
  {
    Pow2Values();
    BitAnd((x + (a - 1)) % WORD, BitNot(64, a - 1))
  }

  /** The mathematical least multiple of `a` that is at least `x`. */
  function AlignUp(x: nat, a: nat): (r: nat)
    requires a > 0
    ensures x <= r < x + a && r % a == 0
    ensures x % a == 0 ==> r == x
  {
    var y := x + (a - 1);
    var q := y / a;
    assert y == q * a + y % a;
    assert y - y % a == q * a + 0;
    DivModUnique(q * a, a, q, 0);
    if x % a == 0 then
      assert x == x / a * a && y == x / a * a + (a - 1);
      DivModUnique(y, a, x / a, a - 1);
      x
    else
      y - y % a
  }

  lemma AlignUpAbove(x: nat, a: nat)
    requires a > 0
    ensures x <= AlignUp(x, a) < x + a && AlignUp(x, a) % a == 0
  {
  }

  lemma ValidPositive(alignment: nat)
    requires AlignmentIsValid(alignment)
    ensures alignment > 0
  {
  }

  /** ALIGN_UP agrees with the mathematical round-up until the sum passes 2^64;
      beyond that it is exactly zero. */
  lemma AlignUpWordSpec(x: nat, a: nat)
    requires x < WORD && a < WORD && AlignmentIsValid(a)
    ensures x + (a - 1) < WORD ==> AlignUpWord(x, a) == AlignUp(x, a)
    ensures x + (a - 1) >= WORD ==> AlignUpWord(x, a) == 0
  {
    var y := (x + (a - 1)) % WORD;
    AlignMask(y, a);
    if x + (a - 1) >= WORD {
      DivModUnique(x + (a - 1), WORD, 1, x + (a - 1) - WORD);
      DivModUnique(y, a, 0, y);
    } else {
      DivModUnique(x + (a - 1), WORD, 0, x + (a - 1));
      AlignUpUnique(x, a, y - y % a);
    }
  }

  lemma AlignMask(y: nat, a: nat)
    requires y < WORD && a < WORD && AlignmentIsValid(a)
    ensures WORD == Pow2(64) && BitAnd(y, BitNot(64, a - 1)) == y - y % a
  {
    Pow2Values();
    AlignmentValidIffPow2(a);
    var k: nat :| a == Pow2(k);
    assert k < 64 by { if 64 <= k { Pow2Monotone(64, k); } }
    MaskClearsLowBits(64, y, k);
  }

  lemma AlignUpUnique(x: nat, a: nat, r: nat)
    requires a > 0
    requires r == (x + (a - 1)) - (x + (a - 1)) % a
    ensures r == AlignUp(x, a)
  {
    if x % a == 0 {
      assert x + (a - 1) == x / a * a + (a - 1);
      DivModUnique(x + (a - 1), a, x / a, a - 1);
    }
  }

  lemma MultipleOfDivides(x: nat, a: nat, b: nat)
    requires a > 0 && b > 0 && x % (a * b) == 0 && a * b > 0
    ensures x % a == 0
  {
    var q := x / (a * b);
    assert x == q * (a * b) == (q * b) * a + 0 by { assert q * (a * b) == (q * b) * a; }
    DivModUnique(x, a, q * b, 0);
  }

  // ------------------------------------------------------------- sequences

  predicate Distinct<T(==)>(s: seq<T>) {
    forall i, j :: 0 <= i < j < |s| ==> s[i] != s[j]
  }

  /** `s` without the first occurrence of `x`. */
  function Without<T(==)>(s: seq<T>, x: T): (r: seq<T>)
    ensures x !in s ==> r == s
    ensures forall y :: y in r ==> y in s
    ensures forall y :: y in s && y != x ==> y in r
    ensures x in s ==> |r| == |s| - 1
  {
    if s == [] then []
    else if s[0] == x then
      assert s == [s[0]] + s[1..];
      s[1..]
    else
      assert s == [s[0]] + s[1..];
      [s[0]] + Without(s[1..], x)
  }

  lemma {:induction false} WithoutDistinct<T>(s: seq<T>, x: T)
    requires Distinct(s)
    ensures Distinct(Without(s, x)) && x !in Without(s, x)
  {
    if s != [] && s[0] != x {
      WithoutDistinct(s[1..], x);
      assert s[0] !in Without(s[1..], x);
    }
  }

  lemma {:induction false} WithoutAt<T>(s: seq<T>, i: nat)
    requires Distinct(s) && i < |s|
    ensures Without(s, s[i]) == s[..i] + s[i + 1..]
  {
    if i > 0 {
      WithoutAt(s[1..], i - 1);
      assert s[1..][..i - 1] == s[1..i] && [s[0]] + s[1..i] == s[..i];
      assert s[1..][i..] == s[i + 1..];
    } else {
      assert s[..0] + s[1..] == s[1..];
    }
  }

  function Elems<T(==)>(s: seq<T>): set<T> {
    set x | x in s
  }

  lemma {:induction false} DistinctSize<T>(s: seq<T>)
    requires Distinct(s)
    ensures |Elems(s)| == |s|
  {
    if s != [] {
      var n := |s| - 1;
      DistinctSize(s[..n]);
      assert Elems(s) == Elems(s[..n]) + {s[n]};
      assert s[n] !in Elems(s[..n]);
    }
  }

  lemma SubsetSize<T>(a: set<T>, b: set<T>)
    requires a <= b
    ensures |a| <= |b|
    ensures |a| == |b| ==> a == b
  {
    assert b == a + (b - a);
    assert |b| == |a| + |b - a|;
  }
}
