/**
 * The four blend modes. Each combines a top and a bottom layer of equal length
 * pixel by pixel and channel by channel. The source computes multiply, screen
 * and overlay in `f32` and rounds; here each is the exact integer nearest to
 * the rational the source evaluates (see Round255).
 */
module Blend {
  import opened ByteMath
  import opened Tga

  /** Multiply: t * b / 255 rounded to the nearest integer. */
  function MultiplyChannel(t: Byte, b: Byte): (r: Byte)
    ensures -255 < 2 * (t * b) - 510 * r < 255
  {
    ProductBound(t, b, 255, 255);
    Round255(t * b)
  }

  /** Subtract: the top value taken from the bottom one, floored at 0. */
  function SubtractChannel(t: Byte, b: Byte): (r: Byte)
    ensures r == if t <= b then b - t else 0
  {
    SaturatingSub(b, t)
  }

  /** Screen: 255 minus (255 - t) * (255 - b) / 255 rounded to the nearest integer. */
  function ScreenChannel(t: Byte, b: Byte): (r: Byte)
    ensures -255 < 2 * ((255 - t) * (255 - b)) - 510 * (255 - r) < 255
  {
    ProductBound(255 - t, 255 - b, 255, 255);
    255 - Round255((255 - t) * (255 - b))
  }

  /**
   * Overlay: decided by the same channel of the bottom pixel. Below 128 it is
   * 2 t b / 255, from 128 up it is 255 - 2 (255 - t) (255 - b) / 255, each
   * rounded to the nearest integer.
   */
  function OverlayChannel(t: Byte, b: Byte): (r: Byte)
    ensures b < 128 ==> -255 < 2 * (2 * (t * b)) - 510 * r < 255
    ensures b >= 128 ==> -255 < 2 * (255 * 255 - 2 * ((255 - t) * (255 - b))) - 510 * r < 255
  {
    if b < 128 then
      ProductBound(t, b, 255, 127);
      Round255(2 * (t * b))
    else
      ProductBound(255 - t, 255 - b, 255, 127);
      Round255(255 * 255 - 2 * ((255 - t) * (255 - b)))
  }

  /** Multiplying by white (255) leaves a channel unchanged; by black (0) gives 0. */
  lemma MultiplyIdentity(t: Byte)
    ensures MultiplyChannel(t, 255) == t
    ensures MultiplyChannel(t, 0) == 0
  {
    RoundUnique(t * 255, t);
  }

  /** Multiply is symmetric in its layers. */
  lemma MultiplyCommutes(t: Byte, b: Byte)
    ensures MultiplyChannel(t, b) == MultiplyChannel(b, t)
  {
  }

  /** Multiply darkens: the result is at most either input. */
  lemma MultiplyDarkens(t: Byte, b: Byte)
    ensures MultiplyChannel(t, b) <= t && MultiplyChannel(t, b) <= b
  {
    ProductBound(t, b, t, 255);
    RoundAtMost(t * b, t);
    ProductBound(t, b, 255, b);
    RoundAtMost(t * b, b);
  }

  /** Screen is multiply on the inverted values, inverted back. */
  lemma ScreenIsInvertedMultiply(t: Byte, b: Byte)
    ensures ScreenChannel(t, b) == 255 - MultiplyChannel(255 - t, 255 - b)
  {
  }

  /** Screening with black (0) leaves a channel unchanged; with white (255) gives 255. */
  lemma ScreenIdentity(t: Byte)
    ensures ScreenChannel(t, 0) == t
    ensures ScreenChannel(t, 255) == 255
  {
    ScreenIsInvertedMultiply(t, 0);
    MultiplyIdentity(255 - t);
  }

  /** Screen is symmetric in its layers. */
  lemma ScreenCommutes(t: Byte, b: Byte)
    ensures ScreenChannel(t, b) == ScreenChannel(b, t)
  {
  }

  /** Screen lightens: the result is at least either input. */
  lemma ScreenLightens(t: Byte, b: Byte)
    ensures ScreenChannel(t, b) >= t && ScreenChannel(t, b) >= b
  {
    ScreenIsInvertedMultiply(t, b);
    MultiplyDarkens(255 - t, 255 - b);
  }

  /**
   * Overlay is multiply with the bottom value doubled when the bottom value is
   * below 128, and otherwise screen with the bottom value doubled less 255.
   */
  lemma OverlayIsMultiplyOrScreen(t: Byte, b: Byte)
    ensures b < 128 ==> OverlayChannel(t, b) == MultiplyChannel(t, 2 * b)
    ensures b >= 128 ==> OverlayChannel(t, b) == ScreenChannel(t, 2 * b - 255)
  {
    if b < 128 {
      assert 2 * (t * b) == t * (2 * b);
    } else {
      var x, y := 255 - t, 255 - b;
      assert 255 - (2 * b - 255) == 2 * y;
      assert x * (2 * y) == 2 * (x * y);
      ProductBound(x, y, 255, 127);
      RoundComplement(2 * (x * y));
    }
  }

  /** The overlay threshold is strict: a bottom value of exactly 128 takes the screen branch. */
  lemma OverlayAt128(t: Byte)
    ensures OverlayChannel(t, 128) == ScreenChannel(t, 1)
    ensures OverlayChannel(t, 127) == MultiplyChannel(t, 254)
  {
    OverlayIsMultiplyOrScreen(t, 128);
    OverlayIsMultiplyOrScreen(t, 127);
  }

  function MultiplyPixel(top: Pixel, bottom: Pixel): Pixel
  {
    Pixel(MultiplyChannel(top.blue, bottom.blue),
          MultiplyChannel(top.green, bottom.green),
          MultiplyChannel(top.red, bottom.red))
  }

  function SubtractPixel(top: Pixel, bottom: Pixel): Pixel
  {
    Pixel(SubtractChannel(top.blue, bottom.blue),
          SubtractChannel(top.green, bottom.green),
          SubtractChannel(top.red, bottom.red))
  }

  function ScreenPixel(top: Pixel, bottom: Pixel): Pixel
  {
    Pixel(ScreenChannel(top.blue, bottom.blue),
          ScreenChannel(top.green, bottom.green),
          ScreenChannel(top.red, bottom.red))
  }

  function OverlayPixel(top: Pixel, bottom: Pixel): Pixel
  {
    Pixel(OverlayChannel(top.blue, bottom.blue),
          OverlayChannel(top.green, bottom.green),
          OverlayChannel(top.red, bottom.red))
  }

  /** Pixel-level identities: multiply by white and screen with black change nothing. */
  lemma PixelIdentities(p: Pixel)
    ensures MultiplyPixel(p, Pixel(255, 255, 255)) == p
    ensures ScreenPixel(p, Pixel(0, 0, 0)) == p
  {
    MultiplyIdentity(p.blue);
    MultiplyIdentity(p.green);
    MultiplyIdentity(p.red);
    ScreenIdentity(p.blue);
    ScreenIdentity(p.green);
    ScreenIdentity(p.red);
  }

  /** Subtracting a brighter top layer never wraps around: (50,50,50) minus (200,200,200) is black. */
  lemma SubtractFloors()
    ensures SubtractPixel(Pixel(200, 200, 200), Pixel(50, 50, 50)) == Pixel(0, 0, 0)
  {
  }

  /** `multiply_blend`; the source panics when the layers differ in length. */
  method MultiplyBlend(top: seq<Pixel>, bottom: seq<Pixel>) returns (blended: seq<Pixel>)
    requires |top| == |bottom|
    ensures |blended| == |top|
    ensures forall i :: 0 <= i < |top| ==> blended[i] == MultiplyPixel(top[i], bottom[i])
  {
    blended := [];
    for i := 0 to |top|
      invariant |blended| == i
      invariant forall k :: 0 <= k < i ==> blended[k] == MultiplyPixel(top[k], bottom[k])
    {
      var t, b := top[i], bottom[i];
      var blue := MultiplyChannel(t.blue, b.blue);
      var green := MultiplyChannel(t.green, b.green);
      var red := MultiplyChannel(t.red, b.red);
      blended := blended + [Pixel(blue, green, red)];
    }
  }

  /** `subtract_blend`: the top layer is taken from the bottom one; panics on a length mismatch. */
  method SubtractBlend(top: seq<Pixel>, bottom: seq<Pixel>) returns (blended: seq<Pixel>)
    requires |top| == |bottom|
    ensures |blended| == |top|
    ensures forall i :: 0 <= i < |top| ==> blended[i] == SubtractPixel(top[i], bottom[i])
  {
    blended := [];
    for i := 0 to |top|
      invariant |blended| == i
      invariant forall k :: 0 <= k < i ==> blended[k] == SubtractPixel(top[k], bottom[k])
    {
      var t, b := top[i], bottom[i];
      var blue := SaturatingSub(b.blue, t.blue);
      var green := SaturatingSub(b.green, t.green);
      var red := SaturatingSub(b.red, t.red);
      blended := blended + [Pixel(blue, green, red)];
    }
  }

  /** `screen_blend`; panics on a length mismatch. */
  method ScreenBlend(top: seq<Pixel>, bottom: seq<Pixel>) returns (blended: seq<Pixel>)
    requires |top| == |bottom|
    ensures |blended| == |top|
    ensures forall i :: 0 <= i < |top| ==> blended[i] == ScreenPixel(top[i], bottom[i])
  {
    blended := [];
    for i := 0 to |top|
      invariant |blended| == i
      invariant forall k :: 0 <= k < i ==> blended[k] == ScreenPixel(top[k], bottom[k])
    {
      var t, b := top[i], bottom[i];
      var blue := ScreenChannel(t.blue, b.blue);
      var green := ScreenChannel(t.green, b.green);
      var red := ScreenChannel(t.red, b.red);
      blended := blended + [Pixel(blue, green, red)];
    }
  }

  /** `overlay_blend`: each channel branches on that channel of the bottom pixel; panics on a length mismatch. */
  method OverlayBlend(top: seq<Pixel>, bottom: seq<Pixel>) returns (blended: seq<Pixel>)
    requires |top| == |bottom|
    ensures |blended| == |top|
    ensures forall i :: 0 <= i < |top| ==> blended[i] == OverlayPixel(top[i], bottom[i])
  {
    blended := [];
    for i := 0 to |top|
      invariant |blended| == i
      invariant forall k :: 0 <= k < i ==> blended[k] == OverlayPixel(top[k], bottom[k])
    {
      var t, b := top[i], bottom[i];
      var blue := OverlayChannel(t.blue, b.blue);
      var green := OverlayChannel(t.green, b.green);
      var red := OverlayChannel(t.red, b.red);
      blended := blended + [Pixel(blue, green, red)];
    }
  }
}
