/**
 * `add_transparent_watermark`: the 4-channel overlay is split into colour
 * and alpha, the inverse mask `255 - alpha` is broadcast to the three colour
 * channels, and base and overlay colour are both weighted by it, summed,
 * rescaled to 0..255 and cast to uint8 (which truncates).
 *
 * The source computes in float64; this model computes in exact arithmetic.
 */
module Blend {
  import opened Pixels

  /** The inverse mask, `background_mask = 255 - watermark_mask`. */
  function BackgroundWeight(alpha: Byte): Byte
  {
    255 - alpha
  }

  /**
   * The value the float pipeline computes for one channel before the cast,
   * in exact real arithmetic: `base_part * 255 + watermark_part * 255` with
   * `base_part = (c / 255) * (w / 255)` and `watermark_part = (m / 255) * (w / 255)`.
   */
  function ExactBlend(c: Byte, m: Byte, w: Byte): real
  {
    (c as real * (1.0 / 255.0)) * (w as real * (1.0 / 255.0)) * 255.0
      + (m as real * (1.0 / 255.0)) * (w as real * (1.0 / 255.0)) * 255.0
  }

  /** The pre-cast value is `(c + m) * w / 255`: both colours share the one weight. */
  lemma ExactBlendIsWeightedSum(c: Byte, m: Byte, w: Byte)
    ensures ExactBlend(c, m, w) == ((c + m) * w) as real / 255.0
  {
  }

  /** The pre-cast value of the channel fits in uint8, so the cast only truncates. */
  predicate ChannelFits(c: Byte, m: Byte, alpha: Byte)
  {
    (c + m) * BackgroundWeight(alpha) < 256 * 255
  }

  /** Every channel of a base pixel under an overlay pixel fits in uint8 before the cast. */
  predicate PixelFits(p: Bgr, q: Bgra)
  {
    ChannelFits(p.b, q.b, q.a) && ChannelFits(p.g, q.g, q.a) && ChannelFits(p.r, q.r, q.a)
  }

  /** `o` is the uint8 truncation of the exact pre-cast value. */
  predicate IsTruncation(o: Byte, x: real)
  {
    o as real <= x < o as real + 1.0
  }

  /** Integer division by 255 is the truncation of the real quotient. */
  lemma DivIsTruncation(n: nat)
    requires n < 256 * 255
    ensures 0 <= n / 255 < 256
    ensures IsTruncation(n / 255, n as real / 255.0)
  {
  }

  /**
   * One output channel: the uint8 cast of the blended value, which is the
   * truncation of the exact float pipeline value with weight `255 - alpha`.
   */
  function BlendChannel(c: Byte, m: Byte, alpha: Byte): (o: Byte)
    requires ChannelFits(c, m, alpha)
    ensures IsTruncation(o, ExactBlend(c, m, BackgroundWeight(alpha)))
  {
    var n := (c + m) * BackgroundWeight(alpha);
    ExactBlendIsWeightedSum(c, m, BackgroundWeight(alpha));
    DivIsTruncation(n);
    n / 255
  }

  /** One output pixel: each colour channel is blended with the pixel's one alpha. */
  function BlendPixel(p: Bgr, q: Bgra): (o: Bgr)
    requires PixelFits(p, q)
    ensures IsBlendOf(o, p, q)
  {
    Bgr(BlendChannel(p.b, q.b, q.a), BlendChannel(p.g, q.g, q.a), BlendChannel(p.r, q.r, q.a))
  }

  /** `o` is the blend of base pixel `p` under overlay pixel `q`, channel by channel. */
  predicate IsBlendOf(o: Bgr, p: Bgr, q: Bgra)
  {
    var w := BackgroundWeight(q.a);
    IsTruncation(o.b, ExactBlend(p.b, q.b, w))
      && IsTruncation(o.g, ExactBlend(p.g, q.g, w))
      && IsTruncation(o.r, ExactBlend(p.r, q.r, w))
  }

  /** The two rasters share a resolution and every pixel fits before the cast. */
  predicate CanComposite(base: Raster3, overlay: Raster4)
  {
    SameShape(base, overlay)
      && forall i, j :: 0 <= i < |base| && 0 <= j < |base[i]| ==> PixelFits(base[i][j], overlay[i][j])
  }

  /**
   * `add_transparent_watermark(base, overlay)`: the result has the inputs'
   * resolution, and each of its pixels is the truncated exact blend of the
   * base pixel and the overlay pixel at the same place.
   */
  function Composite(base: Raster3, overlay: Raster4): (out: Raster3)
    requires CanComposite(base, overlay)
    ensures SameShape(out, base)
    ensures forall i, j :: 0 <= i < |out| && 0 <= j < |out[i]| ==>
      IsBlendOf(out[i][j], base[i][j], overlay[i][j])
  {
    seq(|base|, i requires 0 <= i < |base| =>
      seq(|base[i]|, j requires 0 <= j < |base[i]| => BlendPixel(base[i][j], overlay[i][j])))
  }

  /** Truncation of a real value is unique. */
  lemma TruncationIsUnique(o1: Byte, o2: Byte, x: real)
    requires IsTruncation(o1, x) && IsTruncation(o2, x)
    ensures o1 == o2
  {
  }

  /** Where the overlay is fully opaque, the output channel is 0 whatever the colours. */
  lemma OpaqueChannelIsBlack(c: Byte, m: Byte)
    ensures ChannelFits(c, m, 255)
    ensures BlendChannel(c, m, 255) == 0
  {
  }

  /** Where the overlay is fully transparent, the output channel is the sum of the two colours. */
  lemma TransparentChannelIsSum(c: Byte, m: Byte)
    requires c + m < 256
    ensures ChannelFits(c, m, 0)
    ensures BlendChannel(c, m, 0) == c + m
  {
  }

  /** A more opaque overlay pixel never gives a brighter output channel. */
  lemma MoreOpaqueIsDarker(c: Byte, m: Byte, alpha1: Byte, alpha2: Byte)
    requires alpha1 <= alpha2 && ChannelFits(c, m, alpha1)
    ensures ChannelFits(c, m, alpha2)
    ensures BlendChannel(c, m, alpha2) <= BlendChannel(c, m, alpha1)
  {
    var w1, w2 := BackgroundWeight(alpha1), BackgroundWeight(alpha2);
    assert (c + m) * w2 <= (c + m) * w1 by {
      assert (c + m) * w1 == (c + m) * w2 + (c + m) * (w1 - w2);
    }
  }

  /** An overlay that is fully opaque everywhere gives an all-black image. */
  lemma OpaqueOverlayGivesBlack(base: Raster3, overlay: Raster4)
    requires SameShape(base, overlay)
    requires forall i, j :: 0 <= i < |overlay| && 0 <= j < |overlay[i]| ==> overlay[i][j].a == 255
    ensures CanComposite(base, overlay)
    ensures forall i, j :: 0 <= i < |base| && 0 <= j < |base[i]| ==>
      Composite(base, overlay)[i][j] == Bgr(0, 0, 0)
  {
  }

  /**
   * An overlay that is transparent and black everywhere leaves the base
   * unchanged: the weight 255 passes the base through and the overlay colour
   * adds nothing.
   */
  lemma {:induction false} ClearOverlayIsIdentity(base: Raster3, overlay: Raster4)
    requires SameShape(base, overlay)
    requires forall i, j :: 0 <= i < |overlay| && 0 <= j < |overlay[i]| ==> overlay[i][j] == Bgra(0, 0, 0, 0)
    ensures CanComposite(base, overlay)
    ensures Composite(base, overlay) == base
  {
    forall i, j | 0 <= i < |base| && 0 <= j < |base[i]|
      ensures PixelFits(base[i][j], overlay[i][j])
    {
      var p := base[i][j];
      TransparentChannelIsSum(p.b, 0);
      TransparentChannelIsSum(p.g, 0);
      TransparentChannelIsSum(p.r, 0);
    }
    var out := Composite(base, overlay);
    forall i | 0 <= i < |base|
      ensures out[i] == base[i]
    {
      forall j | 0 <= j < |base[i]|
        ensures out[i][j] == base[i][j]
      {
        var p := base[i][j];
        TransparentChannelIsSum(p.b, 0);
        TransparentChannelIsSum(p.g, 0);
        TransparentChannelIsSum(p.r, 0);
      }
    }
  }

  /**
   * A white base under a half-opaque pure-blue overlay pixel (alpha 128,
   * weight 127): blue is (255 + 255) * 127 / 255 = 254, green and red are
   * 255 * 127 / 255 = 127.
   */
  lemma WhiteUnderHalfBlue()
    ensures PixelFits(Bgr(255, 255, 255), Bgra(255, 0, 0, 128))
    ensures BlendPixel(Bgr(255, 255, 255), Bgra(255, 0, 0, 128)) == Bgr(254, 127, 127)
  {
  }
}
