/**
 * Address arithmetic used by the allocator: powers of two, rounding an
 * address up to a boundary (the QEMU_ALIGN_UP macro), and the facts about
 * the alignment offset inside a page-aligned reservation that make the
 * guard page possible.
 */
module Alignment {

  /** `n` is 2^k for some k >= 0. */
  predicate IsPowerOfTwo(n: int)
    decreases n
  {
    n == 1 || (n > 1 && n % 2 == 0 && IsPowerOfTwo(n / 2))
  }

  lemma PowerOfTwoPositive(n: int)
    requires IsPowerOfTwo(n)
    ensures n >= 1
  {
  }

  /**
   * QEMU_ALIGN_UP(n, m): the least multiple of `m` that is not below `n`,
   * computed as ((n + m - 1) / m) * m.
   */
  function AlignUp(n: nat, m: nat): (r: nat)
    requires m > 0
    ensures r % m == 0
    ensures n <= r < n + m
  {
    var q := (n + m - 1) / m;
    MultipleMod(q, m);
    q * m
  }

  /** A product is a multiple of each factor. */
  lemma MultipleMod(k: int, m: int)
    requires m > 0
    ensures (k * m) % m == 0
  {
    var r := (k * m) % m;
    var c := k - (k * m) / m;
    assert c * m == r;
    if c >= 1 {
      MulAtLeast(c, m);
    } else if c <= -1 {
      MulAtLeast(-c, m);
    }
  }

  lemma MulAtLeast(c: int, m: int)
    requires c >= 1 && m > 0
    ensures c * m >= m
  {
    assert c * m == (c - 1) * m + m;
  }

  /** Of two multiples of `m`, the smaller is at least `m` below the larger. */
  lemma MultiplesAreSpaced(x: int, y: int, m: int)
    requires m > 0 && x % m == 0 && y % m == 0 && x < y
    ensures x + m <= y
  {
    var i, j := x / m, y / m;
    assert x == i * m && y == j * m;
    assert i + 1 <= j;
    assert (i + 1) * m <= j * m;
  }

  /** The difference of two multiples of `m` is a multiple of `m`. */
  lemma DifferenceOfMultiples(x: int, y: int, m: int)
    requires m > 0 && x % m == 0 && y % m == 0
    ensures (x - y) % m == 0
  {
    var i, j := x / m, y / m;
    assert x - y == (i - j) * m;
    MultipleMod(i - j, m);
  }

  /** A multiple of a multiple of `m` is a multiple of `m`. */
  lemma MultipleOfMultiple(x: int, y: int, m: int)
    requires m > 0 && y > 0 && x % y == 0 && y % m == 0
    ensures x % m == 0
  {
    var i, j := x / y, y / m;
    assert x == i * y && y == j * m;
    assert x == (i * j) * m;
    MultipleMod(i * j, m);
  }

  /** Of two powers of two, the smaller divides the larger. */
  lemma {:induction false} PowerOfTwoDivides(a: int, b: int)
    requires IsPowerOfTwo(a) && IsPowerOfTwo(b) && a <= b
    ensures b % a == 0
    decreases a
  {
    if a == 1 {
    } else {
      PowerOfTwoPositive(b / 2);
      PowerOfTwoDivides(a / 2, b / 2);
      var k := (b / 2) / (a / 2);
      assert b / 2 == k * (a / 2);
      assert b == k * a;
      MultipleMod(k, a);
    }
  }

  /**
   * The offset that brings a page-aligned reservation base `p` up to an
   * `align` boundary, when `align` is a power of two no smaller than the
   * (power-of-two) page size: it is a whole number of pages, it is below
   * `align` by at least one page, and it lands on an `align` boundary.
   * Hence a reservation of `size + align` bytes always keeps at least
   * `size + pageSize` bytes after the aligned base.
   */
  lemma AlignedOffset(p: nat, align: nat, pageSize: nat)
    requires IsPowerOfTwo(pageSize) && IsPowerOfTwo(align) && pageSize <= align
    requires p % pageSize == 0
    ensures AlignUp(p, align) - p >= 0
    ensures (AlignUp(p, align) - p) % pageSize == 0
    ensures AlignUp(p, align) - p + pageSize <= align
    ensures (p + (AlignUp(p, align) - p)) % align == 0
  {
    PowerOfTwoPositive(pageSize);
    PowerOfTwoDivides(pageSize, align);
    var up := AlignUp(p, align);
    MultipleOfMultiple(up, align, pageSize);
    DifferenceOfMultiples(up, p, pageSize);
    MultipleMod(0, pageSize);
    if up - p > 0 {
      MultiplesAreSpaced(up - p, align, pageSize);
    }
  }
}
