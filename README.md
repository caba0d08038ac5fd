# Poggle geometry core in Dafny

This project models the geometry module of Poggle, a small pinball/peg board game written in Rust (`src/shape.rs`):

- the two-dimensional `Point` type and its arithmetic: `new`, `zero`, `+`, `+=`, `-`, scalar `*` and `/`, and `length_squared`;
- the saturating offset `Point<u32>::add_signed`, which moves a pixel position by a signed delta;
- the `Shape` and `Body` types, and the point-containment query `Region::contains` for circular bodies.

Files:

- `points.dfy` (module `Points`) holds the point types, their arithmetic, the mutable point receiving `+=`, and the saturating offset.
- `regions.dfy` (module `Regions`) holds `Shape`, `Body` and `Contains`.

Modelling choices:

- The source's `Point<T>` is generic. It is used at three instantiations, and each one is a datatype here:
  - `Point<f32>`, the playfield coordinates, is `Point` over `real`.
  - `Point<u32>`, a pixel, is `PixelPoint` over `U32`.
  - `Point<i32>`, a signed pixel offset, is `PixelOffset` over `I32`.
- `U32` and `I32` are subset types of `int` with Rust's bounds.
- `Point::new(x, y)` is the datatype constructor `Point(x, y)`.
- Floating-point arithmetic is modelled as exact real arithmetic. This includes the `f64` conversion inside `length_squared` and in the radius comparison of `contains`.
- `+=` changes its receiver in place, so it is the method `AddAssign` of the class `MutablePoint`. Every other operation builds a new value and is a function.
- `add_signed` calls `u32::saturating_add_signed`. That function is modelled the way the Rust core library defines it:
  - add the delta's two's-complement bits with wrap-around (`overflowing_add`);
  - keep the wrapped sum when the carry agrees with the delta's sign;
  - otherwise saturate at the bound the carry points to.

  The contract of `SaturatingAddSigned` proves that this computes `clamp(x + dx, 0, 2^32 - 1)`. `Clamp` is characterised as the nearest `u32`.
- `contains` matches on the shape, and its rectangle and polygon arms are `todo!()`, which aborts. `Contains` therefore requires a circular shape. The circle arm compares `|pos - p|²` with `radius²`.

The rest of the repository has no further logic to model:
- `src/poggle.rs` has no collision, stepping or ball-pool logic.
- `Ball` has no behaviour (src/poggle.rs:16-19).
- `shoot` clamps an angle and then discards it (src/poggle.rs:132-134).

`Shape` has three variants, `Circle`, `Rectangle` and `Polygon` (src/shape.rs:135-148), and the model keeps all three.

## Model

| member | source | states |
|---|---|---|
| `Points.Zero` | src/shape.rs:64-69 | the zero point is a two-sided identity for point addition: `p + zero() == p == zero() + p` for every `p` |
| `Points.Add` | src/shape.rs:78-80 | subtracting `b` from `a + b` gives back `a` |
| `Points.AddIsCommutativeGroup` | src/shape.rs:78-80 | point addition is commutative and associative; adding `b` back to `a - b` gives `a`; `a - a` is the zero point; `a + (zero - a)` is zero |
| `Points.Sub` | src/shape.rs:99-101 | the difference is the origin exactly when `a == b` |
| `Points.MutablePoint.AddAssign` | src/shape.rs:87-90 | after `self += rhs` the stored point is the old point plus `rhs`; `rhs` is passed by value and cannot change |
| `Points.Mul` | src/shape.rs:110-112 | scaling a point by `k` multiplies its squared length by `k²` |
| `Points.MulDistributes` | src/shape.rs:110-112 | scaling distributes over point addition and over a sum of scalars, composes (`(p * j) * k == p * (j * k)`), and `p * 1 == p`, `p * 0 == zero` |
| `Points.Div` | src/shape.rs:121-123 | for a nonzero divisor `k`, multiplying the quotient by `k` gives back the original point |
| `Points.DivUndoesMul` | src/shape.rs:110-123 | dividing by a nonzero `k` undoes multiplying by `k` |
| `Points.LengthSquared` | src/shape.rs:44-47 | the squared length is never negative and is positive exactly when the point is not the origin |
| `Points.LengthSquaredOfDifferenceIsSymmetric` | src/shape.rs:44-47 | `|p - q|² == |q - p|²` |
| `Points.Clamp` | src/shape.rs:129-130 | the saturated value is the `u32` nearest to the exact sum |
| `Points.SaturatingAddSigned` | src/shape.rs:129-130 | the wrap-around definition of `u32::saturating_add_signed` equals `clamp(x + dx, 0, 2^32 - 1)` for every `u32` `x` and `i32` `dx` |
| `Points.AddSigned` | src/shape.rs:127-132 | each component of the result is the clamped exact sum of the pixel component and the signed delta, so the result is always a valid `u32` point |
| `Points.AddSignedZero` | src/shape.rs:127-132 | an all-zero delta leaves every pixel point unchanged |
| `Points.AddSignedRoundTrip` | src/shape.rs:127-132 | when no component saturates, adding the negated delta returns the original point |
| `Points.AddSignedIsMonotone` | src/shape.rs:127-132 | a larger delta never gives a smaller component; in each of `x` and `y`, a sum below zero sticks at 0 and one above `2^32 - 1` sticks at `2^32 - 1` |
| `Regions.Contains` | src/shape.rs:159-172 | a circular body contains its own position; every contained point lies within `|radius|` of the position in each coordinate; every point whose coordinate distances sum to at most `|radius|` is contained; only circular bodies may be queried |
| `Regions.ContainsBoundary` | src/shape.rs:162-164 | the boundary is included: the point one radius from the centre is contained, and every point further out on that ray is not |
| `Regions.ContainsMonotoneInRadius` | src/shape.rs:162-164 | only the magnitude of the radius matters, and a circle of larger magnitude contains every point a smaller one does |
| `Regions.ContainsIsTranslationInvariant` | src/shape.rs:162-164 | moving the body and the point by the same offset does not change the answer |

## Left out

- Points.Div: requires a nonzero divisor. Dividing an integer point by zero panics in the source. A floating-point point divided by zero gives infinities or NaN, which exact reals cannot represent.
- Regions.Contains: requires a circular shape. For a rectangle or polygon the source aborts with `todo!()` (src/shape.rs:165-170), so those arms have no behaviour to model.
- Floating-point rounding, infinities and NaN are not modelled. This covers `f32` point arithmetic, the `f64` conversion in `length_squared` and the `f64` squaring of the radius in `contains`.
- Overflow of `+`, `-`, `*` and `/` on integer instantiations is not modelled. Overflowing `+`, `-` and `*` panic in debug builds and wrap in release builds. Integer `/` panics in every build on a zero divisor, and for signed types also on `MIN / -1`. The arithmetic is modelled only for the real-valued `Point<f32>`. The integer instantiations appear only through `add_signed`.
- `PolarPoint` and its conversions to and from `Point<f32>` (src/shape.rs:12-29, 54-58) are not modelled. They use `sin_cos`, `atan2` and `hypot`, which have no exact counterpart over the reals.
- `Point::length` (src/shape.rs:49-51) is not modelled because it takes a square root. The lemmas use `length_squared` instead.
- `src/sdl.rs` is not modelled. It holds window creation, event polling, frame timing and circle drawing, all I/O. It also holds the `From<Point<f32>>` conversions to SDL points (src/sdl.rs:28-38); the integer one uses `as i32` casts, which truncate toward zero and saturate. These conversions exist only to feed the drawing calls.
- The `Render` implementations, the fixed peg layout in `Poggle::new` and `shoot` in `src/poggle.rs` are not modelled. They draw, build a static layout, or clamp an angle and discard it (src/poggle.rs:132-134).
- `src/main.rs` is not modelled. It only wires the game to the window loop.
