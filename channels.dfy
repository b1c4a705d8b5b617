/**
 * Channel operations: splitting an image into one grey image per channel,
 * recombining three images channel by channel, and the two in-place channel
 * adjustments (raise green, scale red and clear blue).
 */
module Channels {
  import opened ByteMath
  import opened Tga

  datatype Channel = Blue | Green | Red

  function ChannelValue(p: Pixel, c: Channel): Byte
  {
    match c
    case Blue => p.blue
    case Green => p.green
    case Red => p.red
  }

  /** A grey pixel: one value replicated into all three channels. */
  function Gray(v: Byte): Pixel
  {
    Pixel(v, v, v)
  }

  /** `out` shows channel `c` of `src` as a grey image, pixel for pixel. */
  ghost predicate Extracts(src: seq<Pixel>, out: seq<Pixel>, c: Channel)
  {
    |out| == |src| && forall i :: 0 <= i < |src| ==> out[i] == Gray(ChannelValue(src[i], c))
  }

  /** `out` takes blue from `blue`, green from `green` and red from `red` at each index. */
  ghost predicate Combines(blue: seq<Pixel>, green: seq<Pixel>, red: seq<Pixel>, out: seq<Pixel>)
  {
    && |blue| == |green| == |red| == |out|
    && forall i :: 0 <= i < |out| ==> out[i] == Pixel(blue[i].blue, green[i].green, red[i].red)
  }

  /**
   * One of the three per-channel loops that write the red, green and blue views
   * of an image: every output pixel repeats the chosen channel of its source pixel.
   */
  method ExtractChannel(pixels: seq<Pixel>, c: Channel) returns (extracted: seq<Pixel>)
    ensures Extracts(pixels, extracted, c)
  {
    extracted := [];
    for i := 0 to |pixels|
      invariant |extracted| == i
      invariant forall k :: 0 <= k < i ==> extracted[k] == Gray(ChannelValue(pixels[k], c))
    {
      var current := pixels[i];
      var v := ChannelValue(current, c);
      extracted := extracted + [Pixel(v, v, v)];
    }
  }

  /**
   * `combine_channels`: the new image keeps the header of the blue input. The
   * source panics unless the three inputs hold the same number of pixels.
   */
  method CombineChannels(blue: Image, green: Image, red: Image) returns (combined: Image)
    requires |blue.pixels| == |green.pixels| && |blue.pixels| == |red.pixels|
    ensures combined.header == blue.header
    ensures Combines(blue.pixels, green.pixels, red.pixels, combined.pixels)
  {
    var pixels := [];
    for i := 0 to |blue.pixels|
      invariant |pixels| == i
      invariant forall k :: 0 <= k < i ==>
        pixels[k] == Pixel(blue.pixels[k].blue, green.pixels[k].green, red.pixels[k].red)
    {
      pixels := pixels + [Pixel(blue.pixels[i].blue, green.pixels[i].green, red.pixels[i].red)];
    }
    combined := Image(blue.header, pixels);
  }

  /** Recombining the blue, green and red views of an image gives back its pixels. */
  lemma RecombineExtracted(src: seq<Pixel>, blue: seq<Pixel>, green: seq<Pixel>, red: seq<Pixel>, out: seq<Pixel>)
    requires Extracts(src, blue, Blue) && Extracts(src, green, Green) && Extracts(src, red, Red)
    requires Combines(blue, green, red, out)
    ensures out == src
  {
    forall i | 0 <= i < |src|
      ensures out[i] == src[i]
    {
      assert blue[i] == Gray(src[i].blue);
      assert green[i] == Gray(src[i].green);
      assert red[i] == Gray(src[i].red);
    }
  }

  /** Adds 200 to green, saturating at 255, in place; blue and red stay as they were. */
  method AddToGreen(pixels: array<Pixel>)
    modifies pixels
    ensures forall i :: 0 <= i < pixels.Length ==>
      pixels[i] == old(pixels[i]).(green := SaturatingAdd(old(pixels[i].green), 200))
  {
    for i := 0 to pixels.Length
      invariant forall k :: 0 <= k < i ==>
        pixels[k] == old(pixels[k]).(green := SaturatingAdd(old(pixels[k].green), 200))
      invariant forall k :: i <= k < pixels.Length ==> pixels[k] == old(pixels[k])
    {
      var modifiedGreen := SaturatingAdd(pixels[i].green, 200);
      pixels[i] := pixels[i].(green := modifiedGreen);
    }
  }

  /** Sets blue to 0 and multiplies red by 4, saturating at 255, in place; green stays. */
  method ScaleRedClearBlue(pixels: array<Pixel>)
    modifies pixels
    ensures forall i :: 0 <= i < pixels.Length ==>
      pixels[i] == old(pixels[i]).(blue := 0, red := SaturatingMul(old(pixels[i].red), 4))
  {
    for i := 0 to pixels.Length
      invariant forall k :: 0 <= k < i ==>
        pixels[k] == old(pixels[k]).(blue := 0, red := SaturatingMul(old(pixels[k].red), 4))
      invariant forall k :: i <= k < pixels.Length ==> pixels[k] == old(pixels[k])
    {
      pixels[i] := pixels[i].(blue := 0);
      var modifiedRed := SaturatingMul(pixels[i].red, 4);
      pixels[i] := pixels[i].(red := modifiedRed);
    }
  }

  /** What AddToGreen does to one green value: it adds 200 capped at 255, so anything from 56 up becomes 255. */
  lemma GreenBoost(g: Byte)
    ensures SaturatingAdd(g, 200) == if g <= 55 then g + 200 else 255
    ensures SaturatingAdd(g, 200) >= g
  {
  }

  /** What ScaleRedClearBlue does to one red value: four times it, capped at 255. */
  lemma RedScale(r: Byte)
    ensures SaturatingMul(r, 4) == if r < 64 then 4 * r else 255
    ensures SaturatingMul(r, 4) >= r
  {
  }
}
