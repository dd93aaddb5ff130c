/**
  From a pixel's texture coordinate and normalised depth to the viewport point
  handed to the camera (`remap` and lines 106-115 of `StartShow` in
  Assets/Scripts/BodyParticles.cs).
 */
module Projection {

  /** A `Vector3`. */
  datatype Vec3 = Vec3(x: real, y: real, z: real)

  /** The display resolution the viewport is built for, fixed in the source. */
  const ViewportWidth: real := 1920.0
  const ViewportHeight: real := 1080.0

  /** The ranges `StartShow` passes to `remap`: from [0, 0.01] to [remapMinDistance, 400]. */
  const DepthFrom: real := 0.0
  const DepthTo: real := 0.01
  const DisplayFar: real := 400.0

  /** The source's `remap`: `(s - from1) / ((to1 - from1) * (to2 - from2)) + from2`.
      It is not a linear rescale between the two ranges; it is reproduced as is. */
  function Remap(s: real, from1: real, to1: real, from2: real, to2: real): real
    requires (to1 - from1) * (to2 - from2) != 0.0
  {
    (s - from1) / ((to1 - from1) * (to2 - from2)) + from2
  }

  /** Multiplying the offset from `from2` back by the denominator recovers the
      offset of `s` from `from1`; with a positive denominator the result lies at
      or above `from2` exactly when `s` lies at or above `from1`. */
  lemma RemapInverse(s: real, from1: real, to1: real, from2: real, to2: real)
    requires (to1 - from1) * (to2 - from2) != 0.0
    ensures (Remap(s, from1, to1, from2, to2) - from2) * ((to1 - from1) * (to2 - from2)) == s - from1
    ensures 0.0 < (to1 - from1) * (to2 - from2) ==> (from2 <= Remap(s, from1, to1, from2, to2) <==> from1 <= s)
  {
    var d := (to1 - from1) * (to2 - from2);
    var r := Remap(s, from1, to1, from2, to2);
    assert (r - from2) * d == s - from1;
    NonPositiveProduct(from2 - r, d);
    if 0.0 < d && from2 <= r {
      assert 0.0 <= (r - from2) * d;
    }
  }

  /** The start of the source range lands on the start of the target range. */
  lemma RemapAtOrigin(from1: real, to1: real, from2: real, to2: real)
    requires (to1 - from1) * (to2 - from2) != 0.0
    ensures Remap(from1, from1, to1, from2, to2) == from2
  {
  }

  /** With a positive denominator `remap` is strictly increasing, with a negative
      one strictly decreasing. */
  lemma RemapMonotone(s1: real, s2: real, from1: real, to1: real, from2: real, to2: real)
    requires (to1 - from1) * (to2 - from2) != 0.0
    requires s1 < s2
    ensures 0.0 < (to1 - from1) * (to2 - from2) ==> Remap(s1, from1, to1, from2, to2) < Remap(s2, from1, to1, from2, to2)
    ensures (to1 - from1) * (to2 - from2) < 0.0 ==> Remap(s2, from1, to1, from2, to2) < Remap(s1, from1, to1, from2, to2)
  {
    var d := (to1 - from1) * (to2 - from2);
    var r1, r2 := Remap(s1, from1, to1, from2, to2), Remap(s2, from1, to1, from2, to2);
    RemapInverse(s1, from1, to1, from2, to2);
    RemapInverse(s2, from1, to1, from2, to2);
    assert (r2 - r1) * d == s2 - s1;
    NonPositiveProduct(r2 - r1, d);
  }

  lemma NonPositiveProduct(a: real, d: real)
    ensures 0.0 <= a && d < 0.0 ==> a * d <= 0.0
  {
  }

  /** The display depth of a normalised depth value. */
  function DisplayDepth(normalized: real, remapMinDistance: real): real
    requires remapMinDistance != DisplayFar
  {
    Remap(normalized, DepthFrom, DepthTo, remapMinDistance, DisplayFar)
  }

  /** The display depth is negative exactly when the normalised depth lies below
      `-remapMinDistance * (400 - remapMinDistance) / 100`, for a minimum
      distance under 400. */
  lemma DisplayDepthNegative(normalized: real, remapMinDistance: real)
    requires remapMinDistance < DisplayFar
    ensures DisplayDepth(normalized, remapMinDistance) < 0.0
            <==> normalized < -remapMinDistance * (DisplayFar - remapMinDistance) * DepthTo
  {
    var d := (DepthTo - DepthFrom) * (DisplayFar - remapMinDistance);
    var r := DisplayDepth(normalized, remapMinDistance);
    RemapInverse(normalized, DepthFrom, DepthTo, remapMinDistance, DisplayFar);
    assert 0.0 < d;
    assert r * d == normalized + remapMinDistance * d;
    if r < 0.0 {
      assert r * d < 0.0;
    } else {
      assert 0.0 <= r * d;
    }
  }

  /** With the default minimum distance of 10, the sentinel -1 of a zero raw
      sample maps to a display depth of 10 - 1/3.9, so the depth gate keeps it. */
  lemma SentinelKeptByDefault()
    ensures DisplayDepth(-1.0, 10.0) == 10.0 - 1.0 / 3.9
    ensures 0.0 <= DisplayDepth(-1.0, 10.0)
  {
  }

  /** The viewport point of a texture coordinate at a display depth: x spans the
      display width, y is flipped so that the top row lands at the display height. */
  function ViewportPoint(u: real, v: real, depth: real): (p: Vec3)
    ensures p.z == depth
    ensures 0.0 <= u < 1.0 ==> 0.0 <= p.x < ViewportWidth
    ensures 0.0 <= v < 1.0 ==> 0.0 < p.y <= ViewportHeight
  {
    Vec3(u * ViewportWidth, ViewportHeight - v * ViewportHeight, depth)
  }

  /** The texture coordinate can be read back from the viewport point. */
  lemma ViewportInverse(u: real, v: real, depth: real)
    ensures ViewportPoint(u, v, depth).x / ViewportWidth == u
    ensures (ViewportHeight - ViewportPoint(u, v, depth).y) / ViewportHeight == v
  {
  }
}
