/** The vector helpers of generation.cpp: the `float3` struct, its `operator +`,
    `Dot`, `Normalize` and the channel collapse `Intensity`.

    Components are exact reals. IEEE rounding, and the NaN or infinity that
    the inverse square root of zero produces, are not part of this model;
    the inverse square root that `Normalize` scales by is a parameter. */
module Vectors {

  /** The `float3` struct: three float components. */
  datatype Float3 = Float3(x: real, y: real, z: real)

  /** A value-initialized `float3`: all components zero. */
  const Zero := Float3(0.0, 0.0, 0.0)

  /** `operator +`: adds `b` to a copy of `a`, component by component. */
  function Plus(a: Float3, b: Float3): Float3
  {
    Float3(a.x + b.x, a.y + b.y, a.z + b.z)
  }

  /** `v` with every component multiplied by `s`. */
  function Scale(v: Float3, s: real): Float3
  {
    Float3(v.x * s, v.y * s, v.z * s)
  }

  /** `Dot`: the sum of the squares of the components. */
  function Dot(v: Float3): (r: real)
    ensures r >= 0.0
  {
    v.x * v.x + v.y * v.y + v.z * v.z
  }

  /** `Normalize`: `v` scaled by `invSqrt(Dot(v))`, where `invSqrt` stands
      for the float reciprocal of the square root. */
  function Normalize(invSqrt: real -> real, v: Float3): Float3
  {
    Scale(v, invSqrt(Dot(v)))
  }

  /** `Intensity`: the brightest of the three channels. */
  function Intensity(pixel: Float3): (r: real)
    ensures r >= pixel.x && r >= pixel.y && r >= pixel.z
    ensures r == pixel.x || r == pixel.y || r == pixel.z
  {
    var f := if pixel.y > pixel.x then pixel.y else pixel.x;
    if pixel.z > f then pixel.z else f
  }

  /** Scaling by `s` scales `Dot` by `s * s`. */
  lemma DotScale(v: Float3, s: real)
    ensures Dot(Scale(v, s)) == s * s * Dot(v)
  {
  }

  /** When `invSqrt` is the exact inverse square root at `Dot(v)`,
      `Normalize` yields a vector of unit length. */
  lemma NormalizeIsUnit(invSqrt: real -> real, v: Float3)
    requires Dot(v) > 0.0
    requires invSqrt(Dot(v)) * invSqrt(Dot(v)) * Dot(v) == 1.0
    ensures Dot(Normalize(invSqrt, v)) == 1.0
  {
    DotScale(v, invSqrt(Dot(v)));
  }

  /** `operator +` is commutative and has the zero vector as identity. */
  lemma PlusLaws(a: Float3, b: Float3)
    ensures Plus(a, b) == Plus(b, a)
    ensures Plus(a, Zero) == a
  {
  }
}
