/**
 * The brightness step of `increase_brightness`: the image is converted to
 * hue/saturation/value, split into its H, S and V planes, the V plane is
 * raised in place with saturation at 255, and the three planes are merged
 * back. The colour-space conversions are library code outside this model:
 * the planes arrive here already split.
 */
module Brightness {
  import opened Pixels

  /** The default brightness step of `increase_brightness`. */
  const DefaultValue: Byte := 18

  /** The three planes merged back by `cv2.merge`. */
  datatype HsvPlanes = HsvPlanes(h: Plane, s: Plane, v: Plane)

  /** `lim = 255 - value`: the largest V that can take the full step. */
  function Limit(value: Byte): Byte
  {
    255 - value
  }

  /** The first masked assignment, `v[v > lim] = 255`, on one pixel. */
  function ClampAbove(v: Byte, value: Byte): Byte
  {
    if v > Limit(value) then 255 else v
  }

  /** The second masked assignment, `v[v <= lim] += value`, on one pixel. */
  function AddAtOrBelow(v: Byte, value: Byte): Byte
  {
    if v <= Limit(value) then v + value else v
  }

  /**
   * The new V of one pixel after both masked assignments, in the order the
   * source runs them. Its contract says it is the saturating sum of `v` and
   * `value`: never below `v`, never above `v + value`, and either exactly
   * `v + value` or the ceiling 255.
   */
  function Brighten(v: Byte, value: Byte): (r: Byte)
    ensures v <= r <= v + value
    ensures r == v + value || r == 255
  {
    AddAtOrBelow(ClampAbove(v, value), value)
  }

  /** The V plane after the step, pixel by pixel. */
  function BrightenPlane(p: Plane, value: Byte): (q: Plane)
    ensures SameShape(q, p)
    ensures forall i, j :: 0 <= i < |p| && 0 <= j < |p[i]| ==>
      p[i][j] <= q[i][j] <= p[i][j] + value && (q[i][j] == p[i][j] + value || q[i][j] == 255)
  {
    seq(|p|, i requires 0 <= i < |p| => seq(|p[i]|, j requires 0 <= j < |p[i]| => Brighten(p[i][j], value)))
  }

  /** The contents of a 2-D array as a plane. */
  function PlaneOf(a: array2<Byte>): (p: Plane)
    reads a
    ensures HasShape(p, a.Length0, a.Length1)
    ensures forall i, j :: 0 <= i < a.Length0 && 0 <= j < a.Length1 ==> p[i][j] == a[i, j]
  {
    seq(a.Length0, i requires 0 <= i < a.Length0 reads a =>
      seq(a.Length1, j requires 0 <= j < a.Length1 reads a => a[i, j]))
  }

  /** A pixel above `lim` is set to 255 and the second assignment leaves it there. */
  lemma ClampedPixelStaysAtCeiling(v: Byte, value: Byte)
    requires v > Limit(value)
    ensures ClampAbove(v, value) == 255
    ensures Brighten(v, value) == 255
  {
  }

  /**
   * When `value > 0`, a pixel that `v[v > lim] = 255` set to 255 is above
   * `lim`, so `v[v <= lim] += value` does not add `value` to it a second time.
   */
  lemma ClampedPixelNotIncremented(v: Byte, value: Byte)
    requires value > 0 && v > Limit(value)
    ensures ClampAbove(v, value) > Limit(value)
    ensures AddAtOrBelow(ClampAbove(v, value), value) == ClampAbove(v, value)
  {
  }

  /** A pixel at or below `lim` is raised by exactly `value`, without wrapping. */
  lemma UnclampedPixelGetsFullStep(v: Byte, value: Byte)
    requires v <= Limit(value)
    ensures Brighten(v, value) == v + value <= 255
  {
  }

  /** Brighten agrees with the saturating sum min(v + value, 255). */
  lemma BrightenIsSaturatingAdd(v: Byte, value: Byte)
    ensures Brighten(v, value) == if v + value <= 255 then v + value else 255
  {
  }

  /** A step of 0 sets `lim` to 255 and leaves the whole V plane unchanged. */
  lemma {:induction false} ZeroStepIsIdentity(p: Plane)
    ensures Limit(0) == 255
    ensures BrightenPlane(p, 0) == p
  {
    var q := BrightenPlane(p, 0);
    forall i | 0 <= i < |p|
      ensures q[i] == p[i]
    {
      forall j | 0 <= j < |p[i]|
        ensures q[i][j] == p[i][j]
      {
        UnclampedPixelGetsFullStep(p[i][j], 0);
      }
    }
  }

  /** A larger step never gives a darker pixel. */
  lemma BrightenMonotoneInValue(v: Byte, value1: Byte, value2: Byte)
    requires value1 <= value2
    ensures Brighten(v, value1) <= Brighten(v, value2)
  {
  }

  /** A brighter input pixel never gives a darker output pixel. */
  lemma BrightenMonotoneInPixel(v1: Byte, v2: Byte, value: Byte)
    requires v1 <= v2
    ensures Brighten(v1, value) <= Brighten(v2, value)
  {
  }

  /** The first masked assignment, `v[v > lim] = 255`, done in place over the whole plane. */
  method ClampPass(v: array2<Byte>, value: Byte)
    modifies v
    ensures forall i, j :: 0 <= i < v.Length0 && 0 <= j < v.Length1 ==>
      v[i, j] == ClampAbove(old(v[i, j]), value)
  {
    var lim := Limit(value);
    for i := 0 to v.Length0
      invariant forall i', j :: 0 <= i' < i && 0 <= j < v.Length1 ==>
        v[i', j] == ClampAbove(old(v[i', j]), value)
      invariant forall i', j :: i <= i' < v.Length0 && 0 <= j < v.Length1 ==>
        v[i', j] == old(v[i', j])
    {
      for j := 0 to v.Length1
        invariant forall i', j' :: 0 <= i' < i && 0 <= j' < v.Length1 ==>
          v[i', j'] == ClampAbove(old(v[i', j']), value)
        invariant forall j' :: 0 <= j' < j ==> v[i, j'] == ClampAbove(old(v[i, j']), value)
        invariant forall j' :: j <= j' < v.Length1 ==> v[i, j'] == old(v[i, j'])
        invariant forall i', j' :: i < i' < v.Length0 && 0 <= j' < v.Length1 ==>
          v[i', j'] == old(v[i', j'])
      {
        if v[i, j] > lim {
          v[i, j] := 255;
        }
      }
    }
  }

  /** The second masked assignment, `v[v <= lim] += value`, done in place over the whole plane. */
  method AddPass(v: array2<Byte>, value: Byte)
    modifies v
    ensures forall i, j :: 0 <= i < v.Length0 && 0 <= j < v.Length1 ==>
      v[i, j] == AddAtOrBelow(old(v[i, j]), value)
  {
    var lim := Limit(value);
    for i := 0 to v.Length0
      invariant forall i', j :: 0 <= i' < i && 0 <= j < v.Length1 ==>
        v[i', j] == AddAtOrBelow(old(v[i', j]), value)
      invariant forall i', j :: i <= i' < v.Length0 && 0 <= j < v.Length1 ==>
        v[i', j] == old(v[i', j])
    {
      for j := 0 to v.Length1
        invariant forall i', j' :: 0 <= i' < i && 0 <= j' < v.Length1 ==>
          v[i', j'] == AddAtOrBelow(old(v[i', j']), value)
        invariant forall j' :: 0 <= j' < j ==> v[i, j'] == AddAtOrBelow(old(v[i, j']), value)
        invariant forall j' :: j <= j' < v.Length1 ==> v[i, j'] == old(v[i, j'])
        invariant forall i', j' :: i < i' < v.Length0 && 0 <= j' < v.Length1 ==>
          v[i', j'] == old(v[i', j'])
      {
        if v[i, j] <= lim {
          v[i, j] := v[i, j] + value;
        }
      }
    }
  }

  /**
   * `increase_brightness` on the planes of the split HSV image: the V plane
   * is raised in place by the two masked assignments, then H, S and the new
   * V are merged. H and S pass through untouched.
   */
  method IncreaseBrightness(h: Plane, s: Plane, v: array2<Byte>, value: Byte := DefaultValue)
    returns (merged: HsvPlanes)
    requires HasShape(h, v.Length0, v.Length1) && HasShape(s, v.Length0, v.Length1)
    modifies v
    ensures forall i, j :: 0 <= i < v.Length0 && 0 <= j < v.Length1 ==>
      v[i, j] == Brighten(old(v[i, j]), value)
    ensures merged == HsvPlanes(h, s, BrightenPlane(old(PlaneOf(v)), value))
  {
    ghost var before := PlaneOf(v);
    ClampPass(v, value);
    AddPass(v, value);
    var after := PlaneOf(v);
    assert after == BrightenPlane(before, value) by {
      var q := BrightenPlane(before, value);
      assert |after| == |q|;
      forall i | 0 <= i < |after|
        ensures after[i] == q[i]
      {
        assert |after[i]| == |q[i]|;
      }
    }
    merged := HsvPlanes(h, s, after);
  }
}
