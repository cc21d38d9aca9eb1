/** The unsigned 32-bit rounding helpers every memory layer is built on. */
module Arith {

  const WORD_LIMIT: nat := 0x1_0000_0000

  type u32 = x: int | 0 <= x < 0x1_0000_0000

  /** The value a 32-bit unsigned variable holds after being assigned `x`. */
  function Wrap(x: int): u32 { x % WORD_LIMIT }

  lemma WrapSame(x: u32)
    ensures Wrap(x) == x
  {
  }

  lemma WrapAdd(x: int, y: int)
    ensures Wrap(Wrap(x) + y) == Wrap(x + y)
  {
    var q := x / WORD_LIMIT;
    assert Wrap(x) == x - q * WORD_LIMIT;
    WrapShift(x + y, -q);
  }

  lemma WrapTwice(x: int)
    ensures Wrap(Wrap(x + 1) + 1) == Wrap(x + 2)
  {
    WrapAdd(x + 1, 1);
  }

  lemma WrapShift(x: int, k: int)
    ensures Wrap(x + k * WORD_LIMIT) == Wrap(x)
  {
  }

  /** A counter that started `Wrap(max - u)` steps before `max` meets it after as many steps and not before. */
  lemma CountersMeet(u: u32, max: u32, steps: nat)
    requires steps <= Wrap(max - u)
    ensures Wrap(u + steps) == max <==> steps == Wrap(max - u)
    ensures Wrap(max - Wrap(u + steps)) == Wrap(max - u) - steps
  {
  }

  // ----- signed 32-bit values

  const INT_MAX: int := 0x7FFF_FFFF

  predicate FitsInt(v: int) { -INT_MAX - 1 <= v <= INT_MAX }

  /** The value an `int` or `long` holds after being assigned `v`: 32 bits, two's complement. */
  function WrapInt(v: int): (r: int)
    ensures FitsInt(r)
  {
    (v + 0x8000_0000) % WORD_LIMIT - 0x8000_0000
  }

  lemma WrapIntExactly(v: int)
    ensures WrapInt(v) == v <==> FitsInt(v)
  {
  }

  lemma WrapIntShift(v: int, k: int)
    ensures WrapInt(v + k * WORD_LIMIT) == WrapInt(v)
  {
  }

  /** Multiplying and adding after a cut is the same as before it. */
  lemma WrapIntMulAdd(n: int, b: int, v: int)
    ensures WrapInt(WrapInt(n) * b + v) == WrapInt(n * b + v)
  {
    var k := (n + 0x8000_0000) / WORD_LIMIT;
    assert n == WrapInt(n) + k * WORD_LIMIT;
    assert n * b + v == (WrapInt(n) * b + v) + (k * b) * WORD_LIMIT;
    WrapIntShift(WrapInt(n) * b + v, k * b);
  }

  lemma WrapIntNeg(n: int)
    ensures WrapInt(-WrapInt(n)) == WrapInt(-n)
  {
    WrapIntMulAdd(n, -1, 0);
  }

  // ----- rounding

  /** Rounds `n` up to a multiple of `align`, in unsigned 32-bit arithmetic. */
  function AlignTo(n: nat, align: nat): nat
    requires align > 0
  {
    if n % align == 0 then n else (n + (align - n % align)) % WORD_LIMIT
  }

  /** The quotient of `n` by `d`, rounded up. */
  function DivideUp(n: nat, d: nat): nat
    requires d > 0
  {
    if n % d == 0 then n / d else 1 + n / d
  }

  lemma MultipleMod(k: int, a: int)
    requires a > 0
    ensures (k * a) % a == 0
  {
    var q, r := (k * a) / a, (k * a) % a;
    assert (k - q) * a == r - 0;
    CloseMultiples(a, k, q);
  }

  lemma MulAtLeast(x: int, a: int)
    requires x >= 1 && a >= 0
    ensures x * a >= a
  {
    assert x * a == a + (x - 1) * a;
  }

  /** Two multiples of `a` that differ by less than `a` are equal. */
  lemma CloseMultiples(a: int, i: int, j: int)
    requires a > 0 && -a < i * a - j * a < a
    ensures i == j
  {
    var d := i - j;
    assert d * a == i * a - j * a && (-d) * a == -(d * a);
    if d > 0 {
      MulAtLeast(d, a);
    } else if d < 0 {
      MulAtLeast(-d, a);
    }
  }

  lemma MultipleOfMultiple(x: int, a: int, b: int)
    requires a > 0 && b > 0 && x % a == 0 && a % b == 0
    ensures x % b == 0
  {
    var k, m := x / a, a / b;
    assert x == k * a && a == m * b;
    assert k * (m * b) == (k * m) * b;
    MultipleMod(k * m, b);
  }

  /** Without the 32-bit cut, rounding up lands on a multiple at or just above `n`. */
  lemma AlignToIsMultiple(n: nat, align: nat)
    requires align > 0 && n + align <= WORD_LIMIT
    ensures AlignTo(n, align) % align == 0
    ensures n <= AlignTo(n, align) < n + align
  {
    var q, r := n / align, n % align;
    assert n == q * align + r;
    assert (q + 1) * align == q * align + align;
    MultipleMod(if r == 0 then q else q + 1, align);
  }

  /** No multiple of `align` lies between `n` and the rounded value. */
  lemma AlignToIsLeast(n: nat, align: nat, m: nat)
    requires align > 0 && n + align <= WORD_LIMIT && n <= m && m % align == 0
    ensures AlignTo(n, align) <= m
  {
    AlignToIsMultiple(n, align);
    var r := AlignTo(n, align);
    assert r == r / align * align && m == m / align * align;
    if m < r { CloseMultiples(align, r / align, m / align); }
  }

  /** The only multiple that close above `n` is the rounded value. */
  lemma RoundsTo(n: nat, align: nat, m: nat)
    requires 0 < align && n + align <= WORD_LIMIT && m % align == 0 && n <= m < n + align
    ensures AlignTo(n, align) == m
  {
    AlignToIsMultiple(n, align);
    AlignToIsLeast(n, align, m);
    var a := AlignTo(n, align);
    assert a == a / align * align && m == m / align * align;
    CloseMultiples(align, m / align, a / align);
  }

  /** Rounding keeps the request exactly when the rounded value still fits 32 bits;
      otherwise it falls below the request. */
  lemma AlignToKeepsRequest(n: nat, align: nat)
    requires 0 < align < WORD_LIMIT && n < WORD_LIMIT
    ensures AlignTo(n, align) >= n <==> n + (if n % align == 0 then 0 else align - n % align) < WORD_LIMIT
  {
  }

  /** `DivideUp(n, d)` blocks of size `d` are the fewest that cover `n`. */
  lemma DivideUpIsLeast(n: nat, d: nat)
    requires d > 0
    ensures DivideUp(n, d) * d >= n
    ensures forall k: nat :: k * d >= n ==> DivideUp(n, d) <= k
  {
    var q, r := n / d, n % d;
    assert n == q * d + r;
    assert (q + 1) * d == q * d + d;
    forall k: nat | k * d >= n ensures DivideUp(n, d) <= k {
      if k < DivideUp(n, d) {
        var gap := q - k;
        assert gap * d == q * d - k * d;
        if gap > 0 { MulAtLeast(gap, d); }
      }
    }
  }
}
