/**
  Silhouette classification (`IsSilhouette` in Assets/Scripts/BodyParticles.cs):
  a mapped coordinate is looked up in the body-index mask, whose byte 255 means
  "no player".

  The source indexes the mask without a bounds check. This model rejects instead
  of reading out of range: a lookup index outside the mask, or one whose `(int)`
  casts have no specified value (NaN, an infinity, or a value beyond `int`),
  classifies the pixel as background.
 */
module Silhouette {
  import opened Numerics

  /** A C# `byte`. */
  type Byte = n: int | 0 <= n < 0x100

  /** The coordinate-mapper output for one pixel. */
  datatype DepthSpacePoint = DepthSpacePoint(x: Float, y: Float)

  /** The row stride of the body-index mask, a literal in the source. */
  const MaskStride: real := 512.0

  /** The body-index value of a pixel that belongs to no tracked body. */
  const NoPlayer: Byte := 255

  /** The validity gate: at least one axis is finite and non-zero. It is an OR of
      the two axes, so one usable axis lets the lookup happen even when the
      other is zero, NaN or infinite. */
  predicate HasMapping(p: DepthSpacePoint)
  {
    IsUsable(p.x) || IsUsable(p.y)
  }

  /** `(int)p.X + (int)(p.Y * 512)`: the cast of the y axis comes after the
      multiplication, and the sum wraps like a C# `int` addition. */
  function MaskIndex(p: DepthSpacePoint): Option<int>
  {
    match (CastToInt(p.x), CastToInt(ScaleBy(p.y, MaskStride)))
    case (Some(column), Some(rowOffset)) => Some(Wrap32(column + rowOffset))
    case _ => None
  }

  /** Whether the colour pixel `index` belongs to a tracked body. */
  function IsSilhouette(depthPoints: seq<DepthSpacePoint>, bodyIndex: seq<Byte>, index: int): (r: bool)
    requires 0 <= index < |depthPoints|
    ensures r ==> HasMapping(depthPoints[index])
    ensures r ==> MaskIndex(depthPoints[index]).Some? && 0 <= MaskIndex(depthPoints[index]).value < |bodyIndex|
  {
    var p := depthPoints[index];
    if HasMapping(p) then
      match MaskIndex(p)
      case Some(i) => 0 <= i < |bodyIndex| && bodyIndex[i] != NoPlayer
      case None => false
    else
      false
  }

  /** A pixel that fails the validity gate is background, whatever the mask
      holds: the mask is not consulted. */
  lemma UnmappedIsBackground(depthPoints: seq<DepthSpacePoint>, mask1: seq<Byte>, mask2: seq<Byte>, index: int)
    requires 0 <= index < |depthPoints|
    requires !HasMapping(depthPoints[index])
    ensures !IsSilhouette(depthPoints, mask1, index) && !IsSilhouette(depthPoints, mask2, index)
  {
  }

  /** Past the gate, with both casts inside `int` and the index inside the mask
      (a C# array, so no longer than `int.MaxValue`), the result is exactly
      "the mask byte is not 255". */
  lemma SilhouetteLookup(depthPoints: seq<DepthSpacePoint>, bodyIndex: seq<Byte>, index: int, x: real, y: real)
    requires 0 <= index < |depthPoints| && depthPoints[index] == DepthSpacePoint(Finite(x), Finite(y))
    requires x != 0.0 || y != 0.0
    requires |bodyIndex| <= Int32Max
    requires InInt32(Trunc(x)) && InInt32(Trunc(y * MaskStride))
    requires 0 <= Trunc(x) + Trunc(y * MaskStride) < |bodyIndex|
    ensures IsSilhouette(depthPoints, bodyIndex, index) <==> bodyIndex[Trunc(x) + Trunc(y * MaskStride)] != NoPlayer
  {
    var i := Trunc(x) + Trunc(y * MaskStride);
    assert HasMapping(depthPoints[index]);
    assert MaskIndex(depthPoints[index]) == Some(i) by {
      MaskIndexExact(x, y);
    }
  }

  /** Without overflow, the lookup index is the plain sum of the two truncations. */
  lemma MaskIndexExact(x: real, y: real)
    requires InInt32(Trunc(x)) && InInt32(Trunc(y * MaskStride)) && InInt32(Trunc(x) + Trunc(y * MaskStride))
    ensures MaskIndex(DepthSpacePoint(Finite(x), Finite(y))) == Some(Trunc(x) + Trunc(y * MaskStride))
  {
    var column, rowOffset := Trunc(x), Trunc(y * MaskStride);
    assert CastToInt(Finite(x)) == Some(column);
    assert CastToInt(ScaleBy(Finite(y), MaskStride)) == Some(rowOffset) by {
      assert ScaleBy(Finite(y), MaskStride) == Finite(y * MaskStride);
    }
    assert Wrap32(column + rowOffset) == column + rowOffset;
  }

  /** The classification depends on at most one mask byte: two masks of the same
      length that agree at the looked-up index classify alike. */
  lemma SilhouetteReadsOneByte(depthPoints: seq<DepthSpacePoint>, mask1: seq<Byte>, mask2: seq<Byte>, index: int)
    requires 0 <= index < |depthPoints| && |mask1| == |mask2|
    requires var m := MaskIndex(depthPoints[index]);
             m.Some? && 0 <= m.value < |mask1| ==> mask1[m.value] == mask2[m.value]
    ensures IsSilhouette(depthPoints, mask1, index) == IsSilhouette(depthPoints, mask2, index)
  {
  }

  /** A lookup index that falls outside the mask classifies as background. */
  lemma OutOfRangeIsBackground(depthPoints: seq<DepthSpacePoint>, bodyIndex: seq<Byte>, index: int)
    requires 0 <= index < |depthPoints|
    requires var m := MaskIndex(depthPoints[index]);
             m.None? || m.value < 0 || |bodyIndex| <= m.value
    ensures !IsSilhouette(depthPoints, bodyIndex, index)
  {
  }
}
