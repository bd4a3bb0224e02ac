/** Fixed-width integer types and the C arithmetic the raster library relies on:
    truncating division, the PICASSO_ABS/MIN/MAX/CLAMP macros, powers of two,
    and the row-major index arithmetic shared by every pixel buffer. */
module Machine {

  type u8 = x: int | 0 <= x < 0x100
  type u16 = x: int | 0 <= x < 0x1_0000
  type u32 = x: int | 0 <= x < 0x1_0000_0000
  type i32 = x: int | -0x8000_0000 <= x < 0x8000_0000

  /** 2^n. */
  function Pow2(n: nat): (r: nat)
    ensures r >= 1
  {
    if n == 0 then 1 else 2 * Pow2(n - 1)
  }

  lemma {:induction false} Pow2Add(a: nat, b: nat)
    ensures Pow2(a + b) == Pow2(a) * Pow2(b)
  {
    if a > 0 {
      Pow2Add(a - 1, b);
    }
  }

  lemma {:induction false} Pow2Monotone(a: nat, b: nat)
    requires a <= b
    ensures Pow2(a) <= Pow2(b)
  {
    if a < b {
      Pow2Monotone(a, b - 1);
    }
  }

  lemma Pow2Values()
    ensures Pow2(8) == 0x100 && Pow2(16) == 0x1_0000 && Pow2(24) == 0x100_0000
    ensures Pow2(32) == 0x1_0000_0000
  {
    assert Pow2(4) == 16 by {
      assert Pow2(1) == 2;
      assert Pow2(2) == 4;
      assert Pow2(3) == 8;
    }
    Pow2Add(4, 4);
    Pow2Add(8, 8);
    Pow2Add(16, 8);
    Pow2Add(16, 16);
  }

  /** C's `/` on int: the quotient is truncated toward zero (Dafny's `/` is Euclidean). */
  function CDiv(a: int, b: int): (q: int)
    requires b != 0
    ensures a >= 0 && b > 0 ==> q == a / b
    ensures a < 0 && b > 0 ==> q * b - b < a <= q * b
  {
    if a >= 0 && b > 0 then a / b
    else if a < 0 && b > 0 then -((-a) / b)
    else if a >= 0 && b < 0 then -(a / (-b))
    else (-a) / (-b)
  }

  /** C's `%` on int: the remainder takes the sign of the dividend. */
  function CMod(a: int, b: int): (r: int)
    requires b != 0
    ensures a >= 0 && b > 0 ==> r == a % b
    ensures a < 0 && b > 0 ==> -b < r <= 0
  {
    a - CDiv(a, b) * b
  }

  /** PICASSO_ABS, on unbounded integers. */
  function Abs(a: int): (r: int)
    ensures r >= 0
    ensures r == a || r == -a
  {
    if a > 0 then a else -a
  }

  /** PICASSO_MAX: one of its arguments, no smaller than either. */
  function Max(a: int, b: int): (r: int)
    ensures r == a || r == b
    ensures r >= a && r >= b
  {
    if a > b then a else b
  }

  /** PICASSO_MIN: one of its arguments, no larger than either. */
  function Min(a: int, b: int): (r: int)
    ensures r == a || r == b
    ensures r <= a && r <= b
  {
    if a < b then a else b
  }

  /** PICASSO_CLAMP: x forced into [lo, hi]. */
  function Clamp(x: int, lo: int, hi: int): (r: int)
    ensures lo <= hi ==> lo <= r <= hi
    ensures lo <= x <= hi ==> r == x
    ensures x < lo ==> r == lo
  {
    if x < lo then lo else if x > hi then hi else x
  }

  /** The row-major index `y * width + x` of a cell inside a width-by-height grid
      lies inside the buffer, and division and remainder by the width recover the cell. */
  lemma GridIndex(x: int, y: int, width: int, height: int)
    requires 0 <= x < width && 0 <= y < height
    ensures 0 <= y * width + x < width * height
    ensures (y * width + x) / width == y
    ensures (y * width + x) % width == x
  {
    assert y * width + x < (y + 1) * width by {
      assert (y + 1) * width == y * width + width;
    }
    assert (y + 1) * width <= height * width by {
      MulMonotone(y + 1, height, width);
    }
    DivModUnique(y * width + x, width, y, x);
  }

  lemma DivBounds(n: nat, d: int)
    requires d > 0
    ensures 0 <= n / d <= n
  {
    var q, r := n / d, n % d;
    assert n == q * d + r && 0 <= r < d;
    if q < 0 {
      MulMonotone(q, -1, d);
      assert false;
    }
    if q > n {
      MulMonotone(1, d, q);
      assert false;
    }
  }

  lemma MulMonotone(a: int, b: int, c: int)
    requires a <= b && c >= 0
    ensures a * c <= b * c
  {
    assert b * c - a * c == (b - a) * c;
  }

  lemma DivModUnique(n: int, d: int, q: int, r: int)
    requires d > 0 && 0 <= r < d && n == q * d + r
    ensures n / d == q && n % d == r
  {
    var q', r' := n / d, n % d;
    assert n == q' * d + r';
    if q' > q {
      MulMonotone(q + 1, q', d);
      assert false;
    } else if q' < q {
      MulMonotone(q' + 1, q, d);
      assert false;
    }
  }

  /** The cell of a row-major index: the inverse of GridIndex. */
  lemma IndexCell(i: int, width: int, height: int)
    requires width > 0 && 0 <= i < width * height
    ensures 0 <= i % width < width
    ensures 0 <= i / width < height
    ensures (i / width) * width + i % width == i
  {
    if i / width >= height {
      MulMonotone(height, i / width, width);
      assert false;
    }
  }

  /** Dividing twice is dividing by the product. */
  lemma DivDiv(n: int, a: int, b: int)
    requires n >= 0 && a > 0 && b > 0
    ensures n / a / b == n / (a * b)
  {
    var q, r := n / a, n % a;
    var q2, r2 := q / b, q % b;
    assert n == q2 * (a * b) + (r2 * a + r) by {
      assert n == q * a + r;
      assert q == q2 * b + r2;
      assert q * a == q2 * b * a + r2 * a;
    }
    assert r2 * a + r < a * b by {
      MulMonotone(r2 + 1, b, a);
    }
    assert 0 <= r2 * a;
    DivModUnique(n, a * b, q2, r2 * a + r);
  }
}
