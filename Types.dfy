/** The C scalar types and C integer arithmetic that planetgen relies on. */
module Types {

  /** `uint8_t`: one colour channel, and one byte of the bitmap file. */
  type byte = x: int | 0 <= x < 256

  /** `char` as the program uses it for its small parameters and noise values
      (signed, as on the platforms the program targets). */
  type int8 = x: int | -128 <= x < 128

  /** The `pixel` struct: three channels, stored blue, green, red. */
  datatype Pixel = Pixel(b: byte, g: byte, r: byte)

  /** Space, a star, and the ocean colour the classification paints over a zeroed buffer. */
  const Black := Pixel(0, 0, 0)
  const White := Pixel(255, 255, 255)
  const Ocean := Pixel(128, 0, 0)

  /** The conversion of an `int` to `uint8_t`, and the byte a `char` holding it
      writes to a file: reduction modulo 256. */
  function ToByte(x: int): byte
  {
    x % 256
  }

  function Abs(x: int): nat
  {
    if x < 0 then -x else x
  }

  /** C's `/` on `int`, which truncates toward zero: `q * d` has the sign of `a`
      and falls short of it in magnitude by less than `|d|`. */
  function CQuot(a: int, d: int): (q: int)
    requires d != 0
    ensures a >= 0 ==> 0 <= q * d <= a < q * d + Abs(d)
    ensures a < 0 ==> q * d - Abs(d) < a <= q * d <= 0
  {
    var u := Abs(a) / Abs(d);
    TruncatedQuotient(a, d, u);
    if (a >= 0) == (d > 0) then u else -u
  }

  /** The quotient of the magnitudes, signed as C signs it, satisfies C's bounds. */
  lemma TruncatedQuotient(a: int, d: int, u: int)
    requires d != 0 && u == Abs(a) / Abs(d)
    ensures var q := if (a >= 0) == (d > 0) then u else -u;
      (a >= 0 ==> 0 <= q * d <= a < q * d + Abs(d)) &&
      (a < 0 ==> q * d - Abs(d) < a <= q * d <= 0)
  {
    var m := Abs(d);
    DivBounds(Abs(a), m);
    var q := if (a >= 0) == (d > 0) then u else -u;
    if d > 0 {
      assert q * d == (if a >= 0 then u * m else -(u * m));
    } else {
      assert d + m == 0;
      assert q * d == (if a >= 0 then u * m else -(u * m));
    }
  }

  /** Euclidean division of a natural number by a positive one brackets it. */
  lemma DivBounds(n: nat, m: nat)
    requires m > 0
    ensures (n / m) * m <= n < (n / m) * m + m
  {
  }

  /** C's `%` on `int`: the remainder that completes C's quotient, so that
      `(a / d) * d + a % d == a`; it is smaller than `|d|` and carries the sign of `a`. */
  function CRem(a: int, d: int): (r: int)
    requires d != 0
    ensures a == CQuot(a, d) * d + r
    ensures Abs(r) < Abs(d)
    ensures a >= 0 ==> r >= 0
    ensures a < 0 ==> r <= 0
  {
    a - CQuot(a, d) * d
  }

  /** Multiplying by a non-negative number keeps the order. */
  lemma MulMonotone(a: int, b: int, n: int)
    requires a <= b && 0 <= n
    ensures a * n <= b * n
  {
  }

  lemma MulSucc(y: int, s: int)
    ensures (y + 1) * s == y * s + s
  {
  }

  /** A positive factor cancels. */
  lemma MulCancel(h: int, a: int, b: int)
    requires h > 0 && h * a == h * b
    ensures a == b
  {
    if a < b {
      MulMonotone(a + 1, b, h);
    } else if a > b {
      MulMonotone(b + 1, a, h);
    }
  }

  /** The quotient and remainder of `n = q * w + r` for `0 <= r < w`. */
  lemma DivModOf(w: int, n: int, q: int, r: int)
    requires 0 <= r < w && n == q * w + r
    ensures n / w == q && n % w == r
  {
    var q', r' := n / w, n % w;
    assert q' * w + r' == n;
    assert (q - q') * w == r' - r;
    if q > q' {
      MulMonotone(1, q - q', w);
    } else if q < q' {
      MulMonotone(1, q' - q, w);
    }
  }
}
