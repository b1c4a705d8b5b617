/**
 * The uncompressed true-colour subset of the Truevision TGA file format (image
 * type 2): an 18-byte header followed by 3-byte pixels stored as blue, green,
 * red. TGA 2.0 places an image ID field of `idLength` bytes, and any colour map,
 * between the header and the pixels; this codec skips neither, so every byte
 * after byte 18 is read as pixel data whatever the header declares (see
 * DecodeTreatsIdFieldAsPixels). Reading a file is modelled as decoding the
 * bytes it holds, writing one as encoding an image to the bytes that would be
 * written; the file system itself is not part of this model.
 */
module Tga {
  import opened ByteMath

  /** Header field 4, the colour map specification: five bytes passed through untouched. */
  type ColorMapDetails = s: seq<Byte> | |s| == 5 witness [0, 0, 0, 0, 0]

  /**
   * Header field 5, the image specification: ten bytes. In TGA 2.0 these are the
   * X and Y origin (bytes 0-1 and 2-3), the width (4-5) and height (6-7) as
   * little-endian 16-bit numbers, the pixel depth (8) and the image descriptor (9).
   */
  type ImageDetails = s: seq<Byte> | |s| == 10 witness [0, 0, 0, 0, 0, 0, 0, 0, 0, 0]

  /** The 18-byte file header, field by field. */
  datatype Header = Header(
    idLength: Byte,
    typeMap: Byte,
    imageType: Byte,
    colorMapDetails: ColorMapDetails,
    imageDetails: ImageDetails)

  /** One pixel: three 8-bit channels, no alpha. */
  datatype Pixel = Pixel(blue: Byte, green: Byte, red: Byte)

  /** A decoded image, the source's `Data`: its header and its pixels in file order. */
  datatype Image = Image(header: Header, pixels: seq<Pixel>)

  /** Why a byte buffer cannot be decoded: it is shorter than the header. */
  datatype DecodeError = Truncated

  datatype Result<T> = Success(value: T) | Failure(error: DecodeError)

  /** The 18 header bytes: three single-byte fields, then fields 4 and 5 verbatim. */
  function HeaderBytes(h: Header): (r: seq<Byte>)
    ensures |r| == 18
  {
    [h.idLength, h.typeMap, h.imageType] + h.colorMapDetails + h.imageDetails
  }

  /** Reads the header fields back from the first 18 bytes, by position. */
  function ParseHeader(b: seq<Byte>): (h: Header)
    requires |b| >= 18
    ensures HeaderBytes(h) == b[..18]
  {
    Header(b[0], b[1], b[2], b[3..8], b[8..18])
  }

  /** Parsing the laid-out bytes gives back the header. */
  lemma ParseHeaderBytes(h: Header)
    ensures ParseHeader(HeaderBytes(h)) == h
  {
    var b := HeaderBytes(h);
    assert b[3..8] == h.colorMapDetails;
    assert b[8..18] == h.imageDetails;
  }

  /** Laying out a parsed header gives back the 18 bytes it was parsed from. */
  lemma HeaderBytesOfParse(b: seq<Byte>)
    requires |b| == 18
    ensures HeaderBytes(ParseHeader(b)) == b
  {
    var r := HeaderBytes(ParseHeader(b));
    forall k | 0 <= k < 18
      ensures r[k] == b[k]
    {
      if 3 <= k < 8 {
        assert r[k] == b[3..8][k - 3];
      } else if 8 <= k {
        assert r[k] == b[8..18][k - 8];
      }
    }
  }

  /**
   * `Header::to_bytes`: fills a zeroed 18-byte array field by field and copies
   * fields 4 and 5 in as slices.
   */
  method ToBytes(h: Header) returns (bytes: seq<Byte>)
    ensures |bytes| == 18
    ensures bytes[0] == h.idLength && bytes[1] == h.typeMap && bytes[2] == h.imageType
    ensures bytes[3..8] == h.colorMapDetails && bytes[8..18] == h.imageDetails
    ensures bytes == HeaderBytes(h)
    ensures ParseHeader(bytes) == h
  {
    var a := new Byte[18](_ => 0);
    a[0] := h.idLength;
    a[1] := h.typeMap;
    a[2] := h.imageType;
    forall k | 0 <= k < 5 {
      a[3 + k] := h.colorMapDetails[k];
    }
    forall k | 0 <= k < 10 {
      a[8 + k] := h.imageDetails[k];
    }
    bytes := a[..];
    assert bytes[3..8] == h.colorMapDetails;
    assert bytes[8..18] == h.imageDetails;
    assert bytes == HeaderBytes(h);
  }

  /**
   * The pixels held by a pixel region, read in 3-byte strides as blue, green,
   * red. A trailing group of one or two bytes is dropped without complaint.
   */
  function DecodePixels(data: seq<Byte>): (r: seq<Pixel>)
    ensures |r| == |data| / 3
    ensures forall k :: 0 <= k < |r| ==> r[k] == Pixel(data[3 * k], data[3 * k + 1], data[3 * k + 2])
    decreases |data|
  {
    if |data| < 3 then []
    else [Pixel(data[0], data[1], data[2])] + DecodePixels(data[3..])
  }

  /** The byte stream of a pixel sequence: blue, green, red per pixel, no padding. */
  function PixelBytes(pixels: seq<Pixel>): (r: seq<Byte>)
    ensures |r| == 3 * |pixels|
    ensures forall k :: 0 <= k < |pixels| ==>
      r[3 * k] == pixels[k].blue && r[3 * k + 1] == pixels[k].green && r[3 * k + 2] == pixels[k].red
  {
    if pixels == [] then []
    else [pixels[0].blue, pixels[0].green, pixels[0].red] + PixelBytes(pixels[1..])
  }

  /** Appending one pixel appends its three bytes. */
  lemma {:induction false} PixelBytesAppend(pixels: seq<Pixel>, p: Pixel)
    ensures PixelBytes(pixels + [p]) == PixelBytes(pixels) + [p.blue, p.green, p.red]
  {
    if pixels != [] {
      assert (pixels + [p])[1..] == pixels[1..] + [p];
      PixelBytesAppend(pixels[1..], p);
    }
  }

  /** Decoding the byte stream of some pixels gives back those pixels. */
  lemma PixelsRoundTrip(pixels: seq<Pixel>)
    ensures DecodePixels(PixelBytes(pixels)) == pixels
  {
    var d := DecodePixels(PixelBytes(pixels));
    assert |d| == |pixels|;
    forall k | 0 <= k < |pixels|
      ensures d[k] == pixels[k]
    {
    }
  }

  /** A pixel region with no partial triplet is exactly the byte stream of its pixels. */
  lemma {:induction false} PixelBytesRoundTrip(data: seq<Byte>)
    requires |data| % 3 == 0
    ensures PixelBytes(DecodePixels(data)) == data
    decreases |data|
  {
    if |data| >= 3 {
      var first := Pixel(data[0], data[1], data[2]);
      var rest := DecodePixels(data[3..]);
      assert DecodePixels(data) == [first] + rest;
      assert ([first] + rest)[0] == first && ([first] + rest)[1..] == rest;
      PixelBytesRoundTrip(data[3..]);
      assert data == data[..3] + data[3..];
    }
  }

  /** Only whole triplets matter: a trailing partial pixel changes nothing. */
  lemma {:induction false} DecodePixelsDropsPartial(data: seq<Byte>)
    ensures DecodePixels(data) == DecodePixels(data[..|data| - |data| % 3])
    decreases |data|
  {
    var whole := data[..|data| - |data| % 3];
    if |data| >= 3 {
      var tail := data[3..];
      assert |tail| % 3 == |data| % 3;
      assert whole[..3] == data[..3];
      assert whole[3..] == tail[..|tail| - |tail| % 3];
      DecodePixelsDropsPartial(tail);
    }
  }

  /**
   * `make_pixels`: walks the region with an index stepping by 3 and pushes a
   * pixel only when three bytes remain from that index.
   */
  method MakePixels(pixelData: seq<Byte>) returns (pixels: seq<Pixel>)
    ensures |pixels| == |pixelData| / 3
    ensures forall k :: 0 <= k < |pixels| ==>
      pixels[k] == Pixel(pixelData[3 * k], pixelData[3 * k + 1], pixelData[3 * k + 2])
    ensures pixels == DecodePixels(pixelData)
  {
    pixels := [];
    var index := 0;
    while index < |pixelData|
      invariant index % 3 == 0
      invariant index <= |pixelData| + 2
      invariant |pixels| == (if index <= |pixelData| then index else |pixelData|) / 3
      invariant forall k :: 0 <= k < |pixels| ==>
        pixels[k] == Pixel(pixelData[3 * k], pixelData[3 * k + 1], pixelData[3 * k + 2])
    {
      if index + 2 < |pixelData| {
        var blue := pixelData[index];
        var green := pixelData[index + 1];
        var red := pixelData[index + 2];
        pixels := pixels + [Pixel(blue, green, red)];
      }
      index := index + 3;
    }
  }

  /**
   * The pixel loop of `write_tga`: pushes each pixel's blue, green and red bytes
   * in turn.
   */
  method SerializePixels(pixels: seq<Pixel>) returns (pixelData: seq<Byte>)
    ensures |pixelData| == 3 * |pixels|
    ensures pixelData == PixelBytes(pixels)
  {
    pixelData := [];
    for i := 0 to |pixels|
      invariant pixelData == PixelBytes(pixels[..i])
    {
      var pixel := pixels[i];
      PixelBytesAppend(pixels[..i], pixel);
      assert pixels[..i + 1] == pixels[..i] + [pixel];
      pixelData := pixelData + [pixel.blue];
      pixelData := pixelData + [pixel.green];
      pixelData := pixelData + [pixel.red];
    }
    assert pixels[..|pixels|] == pixels;
  }

  /** The bytes of a TGA file holding an image: the header, then the pixel stream. */
  function Encode(image: Image): (r: seq<Byte>)
    ensures |r| == 18 + 3 * |image.pixels|
  {
    HeaderBytes(image.header) + PixelBytes(image.pixels)
  }

  /**
   * The image held by the bytes of a TGA file: fails only when there is no room
   * for the header; the header's fields are not checked against the pixels.
   */
  function Decode(data: seq<Byte>): (r: Result<Image>)
    ensures r.Failure? <==> |data| < 18
    ensures r.Success? ==> HeaderBytes(r.value.header) == data[..18]
    ensures r.Success? ==> |r.value.pixels| == (|data| - 18) / 3
  {
    if |data| < 18 then Failure(Truncated)
    else
      HeaderBytesOfParse(data[..18]);
      Success(Image(ParseHeader(data[..18]), DecodePixels(data[18..])))
  }

  /** Decoding what was encoded gives back the same header and pixels. */
  lemma DecodeEncode(image: Image)
    ensures Decode(Encode(image)) == Success(image)
  {
    var data := Encode(image);
    assert data[..18] == HeaderBytes(image.header);
    assert data[18..] == PixelBytes(image.pixels);
    ParseHeaderBytes(image.header);
    PixelsRoundTrip(image.pixels);
  }

  /** Encoding a decoded file gives back its bytes whenever no partial pixel was dropped. */
  lemma EncodeDecode(data: seq<Byte>)
    requires |data| >= 18 && (|data| - 18) % 3 == 0
    ensures Decode(data).Success? && Encode(Decode(data).value) == data
  {
    HeaderBytesOfParse(data[..18]);
    PixelBytesRoundTrip(data[18..]);
    assert data == data[..18] + data[18..];
  }

  /** A file's trailing one or two bytes past its last whole pixel are ignored. */
  lemma DecodeIgnoresPartialPixel(data: seq<Byte>)
    requires |data| >= 18
    ensures Decode(data) == Decode(data[..|data| - (|data| - 18) % 3])
  {
    var cut := data[..|data| - (|data| - 18) % 3];
    assert cut[..18] == data[..18];
    var region := data[18..];
    assert cut[18..] == region[..|region| - |region| % 3];
    DecodePixelsDropsPartial(region);
  }

  /**
   * The decoder never skips an image ID field: whatever `idLength` declares, the
   * first pixel is built from bytes 18, 19 and 20, and changing the `idLength`
   * byte changes no pixel.
   */
  lemma DecodeTreatsIdFieldAsPixels(data: seq<Byte>, idLength: Byte)
    requires |data| >= 21
    ensures Decode(data).Success? && Decode(data).value.pixels[0] == Pixel(data[18], data[19], data[20])
    ensures Decode(data[0 := idLength]).Success?
    ensures Decode(data[0 := idLength]).value.pixels == Decode(data).value.pixels
  {
    assert data[0 := idLength][18..] == data[18..];
  }

  /**
   * The in-memory part of `read_tga`: given the bytes of the file, splits off the
   * header, parses it by position and converts the rest with `make_pixels`. The
   * source's slice `data[0..18]` panics on a shorter file; here that is `Truncated`.
   */
  method ReadTga(data: seq<Byte>) returns (r: Result<Image>)
    ensures r == Decode(data)
  {
    if |data| < 18 {
      return Failure(Truncated);
    }
    var header := ParseHeader(data[..18]);
    var pixels := MakePixels(data[18..]);
    r := Success(Image(header, pixels));
  }

  /**
   * The in-memory part of `write_tga`: the bytes it writes, header first and then
   * the pixel stream.
   */
  method WriteTga(image: Image) returns (bytes: seq<Byte>)
    ensures |bytes| == 18 + 3 * |image.pixels|
    ensures bytes == Encode(image)
  {
    var pixelData := SerializePixels(image.pixels);
    var headerBytes := ToBytes(image.header);
    bytes := headerBytes + pixelData;
  }
}
