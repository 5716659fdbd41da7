/** Alignment utilities of the arena: `max`, `min`, rounding a size up to an
    alignment boundary, the power-of-two test on a `size_t`, and the padding
    needed to bring an address up to an alignment. */
module Align {

  /** Width in bits of `size_t` on the platforms the arena targets. */
  const SizeWidth: nat := 64

  /** 2 to the power k. */
  function Pow2(k: nat): (r: nat)
    ensures r >= 1
  {
    if k == 0 then 1 else 2 * Pow2(k - 1)
  }

  /** `SIZE_MAX`, the largest `size_t`. */
  const SizeMax: nat := Pow2(SizeWidth) - 1

  /** `max` on `size_t` (arena.c). */
  function Max(a: nat, b: nat): (r: nat)
    ensures r >= a && r >= b
    ensures r == a || r == b
  {
    if a > b then a else b
  }

  /** `min` on `size_t` (arena.c). */
  function Min(a: nat, b: nat): (r: nat)
    ensures r <= a && r <= b
    ensures r == a || r == b
  {
    if a < b then a else b
  }

  /** `roundToAlignBoundary`: the smallest multiple of `alignment` that is at
      least `size`. The source asserts both arguments are positive. */
  function RoundToAlignBoundary(alignment: nat, size: nat): (r: nat)
    requires alignment > 0 && size > 0
    ensures r % alignment == 0
    ensures size <= r < size + alignment
  {
    var q := (size + alignment - 1) / alignment;
    assert size + alignment - 1 == q * alignment + (size + alignment - 1) % alignment;
    MultipleMod(q, alignment);
    q * alignment
  }

  lemma MultipleMod(q: nat, a: nat)
    requires a > 0
    ensures (q * a) % a == 0
  {
    DivModUnique(q * a, a, q, 0);
  }

  /** Euclidean division is determined by quotient and remainder. */
  lemma DivModUnique(x: int, a: int, q: int, r: int)
    requires a > 0 && 0 <= r < a && x == q * a + r
    ensures x / a == q && x % a == r
  {
    var q0, r0 := x / a, x % a;
    assert (q - q0) * a == r0 - r;
    if q > q0 {
      MulAtLeast(q - q0, a);
    } else if q < q0 {
      MulAtLeast(q0 - q, a);
    }
  }

  lemma {:induction false} MulAtLeast(k: int, a: int)
    requires k >= 1 && a > 0
    ensures k * a >= a
    decreases k
  {
    if k > 1 {
      MulAtLeast(k - 1, a);
      assert k * a == (k - 1) * a + a;
    }
  }

  /** No multiple of `alignment` at least `size` lies below the rounded value:
      the rounding is the least such multiple. */
  lemma {:induction false} RoundToAlignBoundaryIsLeast(alignment: nat, size: nat, m: nat)
    requires alignment > 0 && size > 0
    requires m % alignment == 0 && m >= size
    ensures RoundToAlignBoundary(alignment, size) <= m
  {
    var r := RoundToAlignBoundary(alignment, size);
    if m < r {
      var p, q := m / alignment, r / alignment;
      assert m == p * alignment;
      assert r == q * alignment;
      assert p < q by {
        if p >= q {
          MonotoneMul(q, p, alignment);
        }
      }
      MonotoneMul(p + 1, q, alignment);
      assert false;
    }
  }

  lemma MonotoneMul(p: nat, q: nat, a: nat)
    requires p <= q
    ensures p * a <= q * a
  {
  }

  /** A size that is already a multiple of the alignment is left as it is. */
  lemma {:induction false} RoundToAlignBoundaryOfMultiple(alignment: nat, size: nat)
    requires alignment > 0 && size > 0 && size % alignment == 0
    ensures RoundToAlignBoundary(alignment, size) == size
  {
    RoundToAlignBoundaryIsLeast(alignment, size, size);
  }

  /** Adding a multiple of the alignment commutes with the rounding. */
  lemma {:induction false} RoundToAlignBoundaryShift(alignment: nat, base: nat, size: nat)
    requires alignment > 0 && size > 0 && base % alignment == 0
    ensures RoundToAlignBoundary(alignment, base + size) == base + RoundToAlignBoundary(alignment, size)
  {
    var r := RoundToAlignBoundary(alignment, size);
    var R := RoundToAlignBoundary(alignment, base + size);
    ModAdd(base, r, alignment);
    RoundToAlignBoundaryIsLeast(alignment, base + size, base + r);
    assert R >= base by {
      assert R >= base + size;
    }
    ModSub(R, base, alignment);
    RoundToAlignBoundaryIsLeast(alignment, size, R - base);
  }

  lemma ModAdd(x: nat, y: nat, a: nat)
    requires a > 0 && x % a == 0 && y % a == 0
    ensures (x + y) % a == 0
  {
    var p, q := x / a, y / a;
    assert x == p * a && y == q * a;
    assert x + y == (p + q) * a;
    MultipleMod(p + q, a);
  }

  lemma ModSub(x: nat, y: nat, a: nat)
    requires a > 0 && x % a == 0 && y % a == 0 && y <= x
    ensures (x - y) % a == 0
  {
    var p, q := x / a, y / a;
    assert x == p * a && y == q * a;
    assert q <= p by {
      if q > p {
        MonotoneMul(p + 1, q, a);
      }
    }
    assert x - y == (p - q) * a;
    MultipleMod(p - q, a);
  }

  /** Divisibility is transitive: an alignment that divides `maxAlign` divides
      every multiple of `maxAlign`. */
  lemma DividesTransitive(a: nat, m: nat, x: nat)
    requires a > 0 && m > 0 && m % a == 0 && x % m == 0
    ensures x % a == 0
  {
    var p, q := m / a, x / m;
    assert m == p * a && x == q * m;
    assert x == (q * p) * a;
    MultipleMod(q * p, a);
  }

  /** The padding bytes that bring `x` (an address, or an offset from an
      aligned base) up to the next multiple of `alignment`: the `slop` of the
      first-fit loop in arena.c, `roundUp(x) - x`. */
  function AlignPadding(x: nat, alignment: nat): (pad: nat)
    requires alignment > 0
    ensures (x + pad) % alignment == 0
    ensures pad < alignment
  {
    if x == 0 then 0 else RoundToAlignBoundary(alignment, x) - x
  }

  /** With an aligned base, the padding of an address depends only on its
      offset from the base. */
  lemma {:induction false} AlignPaddingFromBase(base: nat, offset: nat, alignment: nat)
    requires base > 0 && alignment > 0 && base % alignment == 0
    ensures AlignPadding(base + offset, alignment) == AlignPadding(offset, alignment)
  {
    if offset == 0 {
      RoundToAlignBoundaryOfMultiple(alignment, base);
    } else {
      RoundToAlignBoundaryShift(alignment, base, offset);
    }
  }

  /** A power of two: 1, 2, 4, 8, ... */
  predicate IsPowerOfTwo(n: nat)
    decreases n
  {
    if n <= 1 then n == 1 else n % 2 == 0 && IsPowerOfTwo(n / 2)
  }

  /** Bitwise `&` on unsigned integers, bit by bit from the lowest. */
  function BitAnd(a: nat, b: nat): nat
    decreases a
  {
    if a == 0 || b == 0 then 0
    else 2 * BitAnd(a / 2, b / 2) + (if a % 2 == 1 && b % 2 == 1 then 1 else 0)
  }

  /** `~x + 1` on a `width`-bit unsigned integer: two's complement negation,
      wrapping around at 2^width. */
  function Negate(x: nat, width: nat): (r: nat)
    requires x < Pow2(width)
    ensures r < Pow2(width)
    ensures x != 0 ==> r == Pow2(width) - x
  {
    var P := Pow2(width);
    if x == 0 then
      DivModUnique(P, P, 1, 0);
      (P - 1 - x + 1) % P
    else
      DivModUnique(P - x, P, 0, P - x);
      (P - 1 - x + 1) % P
  }

  /** The test in `assertIsPowerOfTwo`: `x != 0 && (x & (~x + 1)) == x` on a
      `size_t`. */
  predicate PowerOfTwoBitTest(x: nat)
    requires x <= SizeMax
  {
    x != 0 && BitAnd(x, Negate(x, SizeWidth)) == x
  }

  /** The bit test accepts exactly the powers of two. */
  lemma PowerOfTwoBitTestCorrect(x: nat)
    requires x <= SizeMax
    ensures PowerOfTwoBitTest(x) <==> IsPowerOfTwo(x)
  {
    if x != 0 {
      BitTestCorrect(x, SizeWidth);
    }
  }

  /** The bit test on a `w`-bit unsigned integer. */
  lemma BitTestCorrect(x: nat, w: nat)
    requires 0 < x < Pow2(w)
    ensures BitAnd(x, Negate(x, w)) == x <==> IsPowerOfTwo(x)
  {
    NegationAndCorrect(x, w);
  }

  /** For 0 < x < 2^w, `x & (2^w - x) == x` exactly when x is a power of two. */
  lemma {:induction false} NegationAndCorrect(x: nat, w: nat)
    requires 0 < x < Pow2(w)
    ensures BitAnd(x, Pow2(w) - x) == x <==> IsPowerOfTwo(x)
    decreases w
  {
    var P := Pow2(w);
    assert w > 0;
    var h := x / 2;
    assert P == 2 * Pow2(w - 1);
    if x % 2 == 1 {
      assert (P - x) / 2 == Pow2(w - 1) - 1 - h;
      assert (P - x) % 2 == 1;
      ComplementAnd(h, w - 1);
      assert BitAnd(x, P - x) == 1;
    } else {
      assert (P - x) / 2 == Pow2(w - 1) - h;
      assert (P - x) % 2 == 0;
      assert BitAnd(x, P - x) == 2 * BitAnd(h, Pow2(w - 1) - h);
      NegationAndCorrect(h, w - 1);
    }
  }

  /** A number and its bitwise complement within k bits share no bit. */
  lemma {:induction false} ComplementAnd(h: nat, k: nat)
    requires h < Pow2(k)
    ensures BitAnd(h, Pow2(k) - 1 - h) == 0
    decreases k
  {
    if h != 0 && Pow2(k) - 1 - h != 0 {
      assert k > 0;
      assert Pow2(k) == 2 * Pow2(k - 1);
      var c := Pow2(k) - 1 - h;
      assert c / 2 == Pow2(k - 1) - 1 - h / 2;
      assert c % 2 != h % 2;
      ComplementAnd(h / 2, k - 1);
    }
  }
}
