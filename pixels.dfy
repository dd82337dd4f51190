/** Pixel and raster types shared by the brightness step and the watermark blend. */
module Pixels {

  /** One 8-bit unsigned channel value (numpy's uint8). */
  type Byte = x: int | 0 <= x < 256

  /** A single-channel plane, row by row (an H, S or V plane, or an alpha mask). */
  type Plane = seq<seq<Byte>>

  /** A pixel of a 3-channel colour image, in OpenCV's blue-green-red order. */
  datatype Bgr = Bgr(b: Byte, g: Byte, r: Byte)

  /** A pixel of a 4-channel image: colour plus alpha (0 transparent, 255 opaque). */
  datatype Bgra = Bgra(b: Byte, g: Byte, r: Byte, a: Byte)

  type Raster3 = seq<seq<Bgr>>
  type Raster4 = seq<seq<Bgra>>

  /** `x` has `height` rows of `width` pixels each. */
  predicate HasShape<T>(x: seq<seq<T>>, height: nat, width: nat)
  {
    |x| == height && forall i :: 0 <= i < |x| ==> |x[i]| == width
  }

  /** Two rasters have the same resolution: as many rows, and rows of the same width. */
  predicate SameShape<S, T>(x: seq<seq<S>>, y: seq<seq<T>>)
  {
    |x| == |y| && forall i :: 0 <= i < |x| ==> |x[i]| == |y[i]|
  }
}
