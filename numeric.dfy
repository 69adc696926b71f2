/** Integer facts shared by all filters: the `(byte)Math.Clamp(v, 0, 255)` cast,
    `(int)Math.Sqrt(n)` on a non-negative integer, and the gradient magnitude
    `(byte)Math.Clamp((int)Math.Sqrt(gx * gx + gy * gy), 0, 255)`. */
module Numeric {

  /** A C# `byte`: every stored pixel lies in [0, 255]. */
  type byte = x: int | 0 <= x < 256

  /** `(byte)Math.Clamp(v, 0, 255)`. */
  function ClampByte(v: int): (b: byte)
    ensures v < 0 ==> b == 0
    ensures v > 255 ==> b == 255
    ensures 0 <= v <= 255 ==> b == v
  {
    if v < 0 then 0 else if v > 255 then 255 else v
  }

  function Abs(v: int): (a: nat)
    ensures a == v || a == -v
  {
    if v < 0 then -v else v
  }

  function Max(a: int, b: int): (m: int)
    ensures m >= a && m >= b && (m == a || m == b)
  {
    if a >= b then a else b
  }

  /** The floor square root. `(int)Math.Sqrt(n)` computes exactly this for every
      n below 2^52, which covers every sum of squares the filters form. */
  function Isqrt(n: nat): (r: nat)
    ensures r * r <= n < (r + 1) * (r + 1)
  {
    if n < 4 then (if n == 0 then 0 else 1)
    else
      var s := Isqrt(n / 4);
      IsqrtDoubles(n, s);
      var t := 2 * s;
      if (t + 1) * (t + 1) <= n then t + 1 else t
  }

  /** The root of n / 4, doubled, is the root of n or one less. */
  lemma IsqrtDoubles(n: nat, s: nat)
    requires s * s <= n / 4 < (s + 1) * (s + 1)
    ensures (2 * s) * (2 * s) <= n < (2 * s + 2) * (2 * s + 2)
  {
    var q, a, b := n / 4, s * s, (s + 1) * (s + 1);
    assert (2 * s) * (2 * s) == 4 * a;
    assert (2 * s + 2) * (2 * s + 2) == 4 * b;
    assert n < 4 * q + 4;
  }

  /** The floor square root is the only natural number with its defining property. */
  lemma IsqrtUnique(n: nat, r: nat)
    requires r * r <= n < (r + 1) * (r + 1)
    ensures r == Isqrt(n)
  {
    var q := Isqrt(n);
    if r < q {
      SquareLe(r + 1, q);
      assert false;
    } else if q < r {
      SquareLe(q + 1, r);
      assert false;
    }
  }

  /** Squaring is monotone on natural numbers. */
  lemma SquareLe(a: nat, b: nat)
    requires a <= b
    ensures a * a <= b * b
  {
    MulLe(a, b, a);
    MulLe(a, b, b);
  }

  /** Gradient magnitude of a two-kernel operator: `(int)Math.Sqrt(gx*gx + gy*gy)`
      clamped into a byte. */
  function Magnitude(gx: int, gy: int): (m: byte)
    ensures m < 255 ==> m * m <= gx * gx + gy * gy < (m + 1) * (m + 1)
    ensures m == 255 ==> 255 * 255 <= gx * gx + gy * gy
  {
    var r := Isqrt(gx * gx + gy * gy);
    if r >= 255 then SquareLe(255, r); 255 else r
  }

  /** The magnitude saturates exactly when gx² + gy² reaches 255². */
  lemma MagnitudeSaturates(gx: int, gy: int)
    ensures Magnitude(gx, gy) == 255 <==> gx * gx + gy * gy >= 255 * 255
  {
    var n := gx * gx + gy * gy;
    var r := Isqrt(n);
    if n >= 255 * 255 && r < 255 {
      SquareLe(r + 1, 255);
      assert false;
    }
    if n < 255 * 255 && r >= 255 {
      SquareLe(255, r);
      assert false;
    }
  }

  /** The magnitude ignores the signs of the components. */
  lemma MagnitudeOfNegated(gx: int, gy: int)
    ensures Magnitude(-gx, -gy) == Magnitude(gx, gy)
  {
    assert (-gx) * (-gx) + (-gy) * (-gy) == gx * gx + gy * gy;
  }

  /** The magnitude is zero exactly when both components are. */
  lemma MagnitudeZero(gx: int, gy: int)
    ensures Magnitude(gx, gy) == 0 <==> gx == 0 && gy == 0
  {
    SquareNonNegative(gx);
    SquareNonNegative(gy);
    if gx != 0 || gy != 0 {
      if gx != 0 { SquarePositive(gx); } else { SquarePositive(gy); }
      var n := gx * gx + gy * gy;
      assert n >= 1;
      var r := Isqrt(n);
      if r == 0 {
        assert false;
      }
    }
  }

  lemma SquareNonNegative(a: int)
    ensures a * a >= 0
  {
    if a < 0 {
      MulLe(a, 0, -a);
    } else {
      MulLe(0, a, a);
    }
  }

  lemma SquarePositive(a: int)
    requires a != 0
    ensures a * a >= 1
  {
    if a < 0 {
      MulLe(1, -a, -a);
      assert a * a == (-a) * (-a);
    } else {
      MulLe(1, a, a);
    }
  }

  /** Multiplication distributes over addition, on either side. */
  lemma Distribute(a: int, b: int, c: int)
    ensures (a + b) * c == a * c + b * c
    ensures c * (a + b) == c * a + c * b
  {
  }

  /** Multiplication by a natural number is monotone. */
  lemma {:induction false} MulLe(a: int, b: int, c: nat)
    requires a <= b
    ensures a * c <= b * c
  {
    if c > 0 {
      MulLe(a, b, c - 1);
    }
  }
}
