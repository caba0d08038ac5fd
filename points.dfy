/** Two-dimensional points and their arithmetic (src/shape.rs).

    The source's `Point<T>` is generic over a numeric type. Floating-point
    instantiations (`f32`, and the `f64` that `length_squared` converts to) are
    modelled with exact `real` arithmetic; the pixel instantiation `Point<u32>`
    and the signed delta `Point<i32>` are modelled with bounded integers. */
module Points {

  /** `Point<f32>`: a point (or vector) of the playfield.
      `Point::new(x, y)` is the constructor `Point(x, y)`. */
  datatype Point = Point(x: real, y: real)

  /** `Point<u32>`: a pixel position. */
  datatype PixelPoint = PixelPoint(x: U32, y: U32)

  /** `Point<i32>`: a signed pixel offset. */
  datatype PixelOffset = PixelOffset(x: I32, y: I32)

  const U32_MAX: int := 0xFFFF_FFFF
  const U32_MODULUS: int := 0x1_0000_0000

  /** Rust's `u32`. */
  type U32 = n: int | 0 <= n <= 0xFFFF_FFFF

  /** Rust's `i32`. */
  type I32 = n: int | -0x8000_0000 <= n <= 0x7FFF_FFFF

  // ---------------------------------------------------------------------------
  // Arithmetic on real-valued points
  // ---------------------------------------------------------------------------

  /** `Point::zero`: the additive identity. */
  function Zero(): (z: Point)
    ensures forall p: Point :: Add(p, z) == p && Add(z, p) == p
  {
    Point(0.0, 0.0)
  }

  /** `impl Add for Point<T>`: component-wise sum; `Sub` takes it back. */
  function Add(a: Point, b: Point): (r: Point)
    ensures Sub(r, b) == a
  {
    Point(a.x + b.x, a.y + b.y)
  }

  /** `impl Sub for Point<T>`: component-wise difference, the inverse of `Add`.
      The difference is the origin exactly when the operands are equal. */
  function Sub(a: Point, b: Point): (r: Point)
    ensures r == Point(0.0, 0.0) <==> a == b
  {
    Point(a.x - b.x, a.y - b.y)
  }

  /** `impl Mul<T> for Point<T>`: scale both components by `k`, which scales the
      squared length by `k * k`. */
  function Mul(p: Point, k: real): (r: Point)
    ensures LengthSquared(r) == Square(k) * LengthSquared(p)
  {
    Point(p.x * k, p.y * k)
  }

  /** `impl Div<T> for Point<T>`: divide both components by `k`; undone by `Mul`. */
  function Div(p: Point, k: real): (r: Point)
    requires k != 0.0
    ensures Mul(r, k) == p
  {
    var r := Point(p.x / k, p.y / k);
    assert r.x * k == p.x && r.y * k == p.y;
    r
  }

  /** `Point::length_squared`: `x * x + y * y`. It is never negative and is zero
      exactly at the origin. */
  function LengthSquared(p: Point): (r: real)
    ensures r >= 0.0
    ensures r > 0.0 <==> p != Zero()
  {
    SquareIsPositive(p.x);
    SquareIsPositive(p.y);
    Square(p.x) + Square(p.y)
  }

  /** The product of a number with itself. */
  function Square(a: real): (r: real)
  {
    a * a
  }

  /** Absolute value. */
  function Abs(a: real): (r: real)
  {
    if a < 0.0 then -a else a
  }

  /** A square is never negative, and positive away from zero. */
  lemma SquareIsPositive(a: real)
    ensures Square(a) >= 0.0
    ensures a != 0.0 ==> Square(a) > 0.0
  {
    if a > 0.0 {
      calc {
        Square(a);
        a * a;
      > { ProductOfPositives(a, a); }
        0.0;
      }
    } else if a < 0.0 {
      calc {
        Square(a);
        (-a) * (-a);
      > { ProductOfPositives(-a, -a); }
        0.0;
      }
    }
  }

  lemma ProductOfPositives(a: real, b: real)
    requires a > 0.0 && b > 0.0
    ensures a * b > 0.0
  {
  }

  lemma ProductOfNonnegatives(a: real, b: real)
    requires a >= 0.0 && b >= 0.0
    ensures a * b >= 0.0
  {
  }

  /** Squaring orders numbers by magnitude, in both directions. */
  lemma SquareIsMonotone(a: real, b: real)
    ensures Abs(a) <= Abs(b) <==> Square(a) <= Square(b)
  {
    var u, v := Abs(a), Abs(b);
    assert Square(a) == u * u && Square(b) == v * v;
    if u <= v {
      calc {
        u * u;
      <= { ProductOfNonnegatives(u, v - u); }
        u * v;
      <= { ProductOfNonnegatives(v - u, v); }
        v * v;
      }
    } else {
      calc {
        v * v;
      <= { ProductOfNonnegatives(v, u - v); }
        v * u;
      < { ProductOfPositives(u - v, u); }
        u * u;
      }
    }
  }

  /** The sum of two squares is at most the square of the sum of the magnitudes. */
  lemma SquareOfSumBound(a: real, b: real)
    ensures Square(a) + Square(b) <= Square(Abs(a) + Abs(b))
  {
  }

  /** Points under `Add` form a commutative group with identity `Zero()` and
      inverse given by `Sub`. */
  lemma AddIsCommutativeGroup(a: Point, b: Point, c: Point)
    ensures Add(a, b) == Add(b, a)
    ensures Add(Add(a, b), c) == Add(a, Add(b, c))
    ensures Add(Sub(a, b), b) == a
    ensures Add(a, Sub(Zero(), a)) == Zero()
    ensures Sub(a, a) == Zero()
  {
  }

  /** Scalar multiplication distributes over point addition and composes. */
  lemma MulDistributes(a: Point, b: Point, j: real, k: real)
    ensures Mul(Add(a, b), k) == Add(Mul(a, k), Mul(b, k))
    ensures Mul(a, j + k) == Add(Mul(a, j), Mul(a, k))
    ensures Mul(Mul(a, j), k) == Mul(a, j * k)
    ensures Mul(a, 1.0) == a && Mul(a, 0.0) == Zero()
  {
  }

  /** Dividing by a nonzero scalar undoes multiplying by it. */
  lemma DivUndoesMul(p: Point, k: real)
    requires k != 0.0
    ensures Div(Mul(p, k), k) == p
  {
  }

  /** The squared length of a difference does not depend on the order of the
      operands. */
  lemma LengthSquaredOfDifferenceIsSymmetric(p: Point, q: Point)
    ensures LengthSquared(Sub(p, q)) == LengthSquared(Sub(q, p))
  {
  }

  // ---------------------------------------------------------------------------
  // In-place addition
  // ---------------------------------------------------------------------------

  /** A point stored in a mutable place, the receiver of `impl AddAssign for Point<T>`. */
  class MutablePoint {
    var x: real
    var y: real

    /** The point currently held. */
    function Value(): Point
      reads this
    {
      Point(x, y)
    }

    constructor (p: Point)
      ensures Value() == p
    {
      x, y := p.x, p.y;
    }

    /** `add_assign`: `self += rhs` leaves the old value plus `rhs`. The right-hand
        side is taken by value, so it cannot alias `self` and is unchanged. */
    method AddAssign(rhs: Point)
      modifies this
      ensures Value() == Add(old(Value()), rhs)
    {
      x := x + rhs.x;
      y := y + rhs.y;
    }
  }

  // ---------------------------------------------------------------------------
  // Saturating offset of a pixel point by a signed delta
  // ---------------------------------------------------------------------------

  /** The reference meaning of saturation: the `u32` nearest to `n`. */
  function Clamp(n: int): (r: U32)
    ensures forall m: U32 :: Gap(r, n) <= Gap(m, n)
  {
    if n < 0 then 0 else if n > U32_MAX then U32_MAX else n
  }

  /** Distance between two integers. */
  function Gap(a: int, b: int): (r: nat)
  {
    if a < b then b - a else a - b
  }

  /** `rhs as u32`: the two's-complement bits of a signed value read as unsigned. */
  function AsUnsigned(d: I32): (r: U32)
  {
    if d < 0 then d + U32_MODULUS else d
  }

  /** `u32::overflowing_add`: the sum modulo 2^32, and whether it wrapped. */
  function OverflowingAdd(a: U32, b: U32): (r: (U32, bool))
  {
    ((a + b) % U32_MODULUS, a + b > U32_MAX)
  }

  /** `u32::saturating_add_signed`, as the Rust core library defines it: add the
      reinterpreted delta with wrap-around, keep the wrapped sum when the carry
      agrees with the delta's sign, and otherwise saturate at the bound the carry
      points to. */
  function SaturatingAddSigned(x: U32, d: I32): (r: U32)
    ensures r == Clamp(x + d)
  {
    var (res, overflow) := OverflowingAdd(x, AsUnsigned(d));
    if overflow == (d < 0) then res
    else if overflow then U32_MAX
    else 0
  }

  /** `Point<u32>::add_signed`: each component is offset by the signed delta and
      saturates at 0 and 2^32 - 1 instead of wrapping. */
  function AddSigned(p: PixelPoint, d: PixelOffset): (r: PixelPoint)
    ensures r.x == Clamp(p.x + d.x) && r.y == Clamp(p.y + d.y)
  {
    PixelPoint(SaturatingAddSigned(p.x, d.x), SaturatingAddSigned(p.y, d.y))
  }

  /** A zero delta leaves a pixel point where it is. */
  lemma AddSignedZero(p: PixelPoint)
    ensures AddSigned(p, PixelOffset(0, 0)) == p
  {
  }

  /** A delta whose sum stays in range is undone by the negated delta. */
  lemma AddSignedRoundTrip(p: PixelPoint, d: PixelOffset)
    requires 0 <= p.x + d.x <= U32_MAX && 0 <= p.y + d.y <= U32_MAX
    requires d.x != -0x8000_0000 && d.y != -0x8000_0000
    ensures AddSigned(AddSigned(p, d), PixelOffset(-d.x, -d.y)) == p
  {
  }

  /** Saturation: a sum below zero sticks at 0 and one above the range sticks at
      2^32 - 1, so a larger offset never moves a component back. */
  lemma AddSignedIsMonotone(p: PixelPoint, d: PixelOffset, e: PixelOffset)
    requires d.x <= e.x && d.y <= e.y
    ensures AddSigned(p, d).x <= AddSigned(p, e).x
    ensures AddSigned(p, d).y <= AddSigned(p, e).y
    ensures p.x + d.x < 0 ==> AddSigned(p, d).x == 0
    ensures p.x + d.x > U32_MAX ==> AddSigned(p, d).x == U32_MAX
    ensures p.y + d.y < 0 ==> AddSigned(p, d).y == 0
    ensures p.y + d.y > U32_MAX ==> AddSigned(p, d).y == U32_MAX
  {
  }
}
