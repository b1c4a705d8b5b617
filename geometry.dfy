/**
 * Geometric operations: the vertical flip and the four-quadrant merge. Both
 * treat the pixel sequence as rows of `w` pixels, cell (i, j) at index i*w + j,
 * and both take `w` and `h` from single header bytes, as the source does:
 * bytes that under TGA 2.0 do not hold the width and height (see FlipWidth and
 * MergeWidth).
 */
module Geometry {
  import opened ByteMath
  import opened Tga

  /** Index of the pixel in row i, column j of a grid w pixels wide. */
  function CellIndex(w: nat, i: nat, j: nat): nat
  {
    i * w + j
  }

  /** Index of the cell in row h-1-i, column j: the cell that row i, column j mirrors vertically. */
  function MirrorIndex(w: nat, h: nat, i: nat, j: nat): nat
    requires i < h
  {
    (h - 1 - i) * w + j
  }

  /** Every cell of an h-row grid of width w lies below w * h. */
  lemma CellIndexBound(w: nat, h: nat, i: nat, j: nat)
    requires i < h && j < w
    ensures CellIndex(w, i, j) < w * h
  {
    assert i * w + j < (i + 1) * w;
    ProductBound(i + 1, w, h, w);
  }

  /** Every index below w * h is the cell of exactly one row and column. */
  lemma RowMajor(w: nat, h: nat, k: nat)
    requires k < w * h
    ensures w > 0 && k / w < h && k % w < w && CellIndex(w, k / w, k % w) == k
  {
    if k / w >= h {
      ProductBound(h, w, k / w, w);
    }
  }

  /**
   * The width `flip` uses: byte 0 of the image details. Under TGA 2.0 that is
   * the low byte of the X origin (field 5.1), not the width.
   */
  function FlipWidth(header: Header): (w: nat)
    ensures w < 256
    ensures w == HeaderBytes(header)[8]
    ensures w == XOrigin(header) % 256
  {
    header.imageDetails[0]
  }

  /** The height `flip` uses: byte 1 of the image details, the high byte of the X origin under TGA 2.0. */
  function FlipHeight(header: Header): (h: nat)
    ensures h < 256
    ensures h == HeaderBytes(header)[9]
    ensures h == XOrigin(header) / 256
  {
    header.imageDetails[1]
  }

  /** The first `rows` rows of `out` are rows h-1, h-2, ... of `src`, each with its columns in order. */
  ghost predicate FlippedRows(src: seq<Pixel>, w: nat, h: nat, out: seq<Pixel>, rows: nat)
  {
    forall i, j :: 0 <= i < rows && i < h && 0 <= j < w ==>
      && CellIndex(w, i, j) < |out|
      && MirrorIndex(w, h, i, j) < |src|
      && out[CellIndex(w, i, j)] == src[MirrorIndex(w, h, i, j)]
  }

  /** Appending past the finished rows keeps them finished. */
  lemma FlippedRowsAppend(src: seq<Pixel>, w: nat, h: nat, out: seq<Pixel>, rows: nat, x: Pixel)
    requires FlippedRows(src, w, h, out, rows)
    ensures FlippedRows(src, w, h, out + [x], rows)
  {
    forall i, j | 0 <= i < rows && i < h && 0 <= j < w
      ensures (out + [x])[CellIndex(w, i, j)] == src[MirrorIndex(w, h, i, j)]
    {
      assert out[CellIndex(w, i, j)] == src[MirrorIndex(w, h, i, j)];
    }
  }

  /** `out` is the first h rows of `src`, w pixels wide, in reverse row order. */
  ghost predicate IsVerticalFlip(src: seq<Pixel>, w: nat, h: nat, out: seq<Pixel>)
  {
    |out| == w * h && FlippedRows(src, w, h, out, h)
  }

  /**
   * `flip`: output row i is input row h-1-i. The source indexes the pixels
   * unchecked, so it panics exactly when w * h exceeds their number.
   */
  method Flip(image: Image) returns (flipped: seq<Pixel>)
    requires FlipWidth(image.header) * FlipHeight(image.header) <= |image.pixels|
    ensures IsVerticalFlip(image.pixels, FlipWidth(image.header), FlipHeight(image.header), flipped)
  {
    flipped := FlipRows(image.pixels, FlipWidth(image.header), FlipHeight(image.header));
  }

  /** The row and column loops of `flip`, once its width and height are read from the header. */
  method FlipRows(pixels: seq<Pixel>, width: nat, height: nat) returns (flipped: seq<Pixel>)
    requires width * height <= |pixels|
    ensures IsVerticalFlip(pixels, width, height, flipped)
  {
    flipped := [];
    for i := 0 to height
      invariant |flipped| == i * width
      invariant FlippedRows(pixels, width, height, flipped, i)
    {
      for j := 0 to width
        invariant |flipped| == i * width + j
        invariant FlippedRows(pixels, width, height, flipped, i)
        invariant forall c :: 0 <= c < j ==>
          && MirrorIndex(width, height, i, c) < |pixels|
          && flipped[CellIndex(width, i, c)] == pixels[MirrorIndex(width, height, i, c)]
      {
        CellIndexBound(width, height, height - 1 - i, j);
        assert MirrorIndex(width, height, i, j) == CellIndex(width, height - 1 - i, j);
        var index := MirrorIndex(width, height, i, j);
        FlippedRowsAppend(pixels, width, height, flipped, i, pixels[index]);
        flipped := flipped + [pixels[index]];
      }
    }
  }

  /** Flipping a flip, with the same width and height, gives back the first w * h pixels. */
  lemma FlipTwice(src: seq<Pixel>, w: nat, h: nat, mid: seq<Pixel>, out: seq<Pixel>)
    requires w * h <= |src|
    requires IsVerticalFlip(src, w, h, mid) && IsVerticalFlip(mid, w, h, out)
    ensures out == src[..w * h]
  {
    forall k | 0 <= k < w * h
      ensures out[k] == src[k]
    {
      RowMajor(w, h, k);
      var i, j := k / w, k % w;
      var m := h - 1 - i;
      assert MirrorIndex(w, h, i, j) == CellIndex(w, m, j);
      assert MirrorIndex(w, h, m, j) == CellIndex(w, i, j);
      assert out[CellIndex(w, i, j)] == mid[CellIndex(w, m, j)];
      assert mid[CellIndex(w, m, j)] == src[MirrorIndex(w, h, m, j)];
    }
  }

  /** An image of two rows [A, B], each w pixels wide, flips to [B, A]. */
  lemma FlipTwoRows(src: seq<Pixel>, w: nat, out: seq<Pixel>)
    requires |src| == 2 * w
    requires IsVerticalFlip(src, w, 2, out)
    ensures out == src[w..] + src[..w]
  {
    var swapped := src[w..] + src[..w];
    forall k | 0 <= k < 2 * w
      ensures out[k] == swapped[k]
    {
      RowMajor(w, 2, k);
      assert out[CellIndex(w, k / w, k % w)] == src[MirrorIndex(w, 2, k / w, k % w)];
    }
  }

  /**
   * The source image for cell (i, j) of a w x h merge: 0 top-left, 1 top-right,
   * 2 bottom-left, 3 bottom-right, split at w / 2 and h / 2.
   */
  function Quadrant(w: nat, h: nat, i: nat, j: nat): (q: nat)
    ensures q < 4
    ensures q % 2 == 1 <==> j >= w / 2
    ensures q >= 2 <==> i >= h / 2
  {
    if j < w / 2 then
      if i < h / 2 then 0 else 2
    else
      if i < h / 2 then 1 else 3
  }

  /** For a 4 x 4 merge, each corner cell comes from its own quadrant's image. */
  lemma QuadrantCorners()
    ensures Quadrant(4, 4, 0, 0) == 0 && Quadrant(4, 4, 0, 3) == 1
    ensures Quadrant(4, 4, 3, 0) == 2 && Quadrant(4, 4, 3, 3) == 3
  {
  }

  /**
   * The width `combine_images` uses: byte 8 of the first image's details. Under
   * TGA 2.0 that is the pixel depth (field 5.5), 24 for a 24-bit file.
   */
  function MergeWidth(header: Header): (w: nat)
    ensures w < 256
    ensures w == HeaderBytes(header)[16]
  {
    header.imageDetails[8]
  }

  /** The height `combine_images` uses: byte 9, the image descriptor (field 5.6) under TGA 2.0. */
  function MergeHeight(header: Header): (h: nat)
    ensures h < 256
    ensures h == HeaderBytes(header)[17]
  {
    header.imageDetails[9]
  }

  /** The header written for a merged image: type 2, every other byte 0 except details 5, 7 and 8. */
  function MergedHeader(): (h: Header)
    ensures h.idLength == 0 && h.typeMap == 0 && h.imageType == 2
    ensures forall k :: 0 <= k < 5 ==> h.colorMapDetails[k] == 0
    ensures DeclaredWidth(h) == 1024 && DeclaredHeight(h) == 1024
    ensures h.imageDetails[8] == 24 && h.imageDetails[9] == 0
    ensures XOrigin(h) == 0 && YOrigin(h) == 0
  {
    Header(0, 0, 2, [0, 0, 0, 0, 0], [0, 0, 0, 0, 0, 4, 0, 4, 24, 0])
  }

  /** The X origin a header declares under TGA 2.0: details bytes 0-1, little-endian. */
  function XOrigin(header: Header): nat
  {
    header.imageDetails[0] as int + 256 * header.imageDetails[1] as int
  }

  /** The Y origin a header declares under TGA 2.0: details bytes 2-3, little-endian. */
  function YOrigin(header: Header): nat
  {
    header.imageDetails[2] as int + 256 * header.imageDetails[3] as int
  }

  /** The width a header declares under TGA 2.0: details bytes 4-5, little-endian. */
  function DeclaredWidth(header: Header): nat
  {
    header.imageDetails[4] as int + 256 * header.imageDetails[5] as int
  }

  /** The height a header declares under TGA 2.0: details bytes 6-7, little-endian. */
  function DeclaredHeight(header: Header): nat
  {
    header.imageDetails[6] as int + 256 * header.imageDetails[7] as int
  }

  /**
   * The merged header declares a 1024 x 1024, 24-bit image, but a merge built from
   * byte-sized w and h holds at most 255 * 255 pixels, so the declared size never
   * matches the pixel count.
   */
  lemma MergedHeaderDeclaresOtherSize(w: Byte, h: Byte)
    ensures DeclaredWidth(MergedHeader()) == 1024 && DeclaredHeight(MergedHeader()) == 1024
    ensures MergedHeader().imageDetails[8] == 24
    ensures w * h < DeclaredWidth(MergedHeader()) * DeclaredHeight(MergedHeader())
  {
    ProductBound(w, h, 255, 255);
  }

  /** Every cell of a w x h merge lies inside the image its quadrant reads from. */
  ghost predicate QuadrantsInBounds(images: seq<Image>, w: nat, h: nat)
    requires |images| == 4
  {
    forall i, j :: 0 <= i < h && 0 <= j < w ==>
      CellIndex(w, i, j) < |images[Quadrant(w, h, i, j)].pixels|
  }

  /** The first `rows` rows of `out` copy each cell from the image of its quadrant, at the same index. */
  ghost predicate MergedRows(images: seq<Image>, w: nat, h: nat, out: seq<Pixel>, rows: nat)
    requires |images| == 4
  {
    forall i, j :: 0 <= i < rows && i < h && 0 <= j < w ==>
      && CellIndex(w, i, j) < |out|
      && CellIndex(w, i, j) < |images[Quadrant(w, h, i, j)].pixels|
      && out[CellIndex(w, i, j)] == images[Quadrant(w, h, i, j)].pixels[CellIndex(w, i, j)]
  }

  /** The first `cols` cells of row i of `out` copy from the image of their quadrant, at the same index. */
  ghost predicate MergedCols(images: seq<Image>, w: nat, h: nat, out: seq<Pixel>, i: nat, cols: nat)
    requires |images| == 4
  {
    forall j :: 0 <= j < cols && j < w ==>
      && CellIndex(w, i, j) < |out|
      && CellIndex(w, i, j) < |images[Quadrant(w, h, i, j)].pixels|
      && out[CellIndex(w, i, j)] == images[Quadrant(w, h, i, j)].pixels[CellIndex(w, i, j)]
  }

  /** Appending past the finished cells keeps them finished. */
  lemma MergedAppend(images: seq<Image>, w: nat, h: nat, out: seq<Pixel>, i: nat, cols: nat, x: Pixel)
    requires |images| == 4
    requires MergedRows(images, w, h, out, i) && MergedCols(images, w, h, out, i, cols)
    ensures MergedRows(images, w, h, out + [x], i) && MergedCols(images, w, h, out + [x], i, cols)
  {
    forall r, c | 0 <= r < i && r < h && 0 <= c < w
      ensures (out + [x])[CellIndex(w, r, c)] == out[CellIndex(w, r, c)]
    {
    }
    forall c | 0 <= c < cols && c < w
      ensures (out + [x])[CellIndex(w, i, c)] == out[CellIndex(w, i, c)]
    {
    }
  }

  /** A finished row i extends the finished rows to i + 1. */
  lemma MergedNextRow(images: seq<Image>, w: nat, h: nat, out: seq<Pixel>, i: nat)
    requires |images| == 4
    requires MergedRows(images, w, h, out, i) && MergedCols(images, w, h, out, i, w)
    ensures MergedRows(images, w, h, out, i + 1)
  {
  }

  /**
   * `combine_images`: a w x h image whose cells come from the four images by
   * quadrant, each at its own index (nothing is scaled or tiled). The source
   * panics when the other images disagree with the first on details bytes 8 and
   * 9, and when a cell's index lies past the end of the image it reads.
   */
  method CombineImages(images: seq<Image>) returns (combined: Image)
    requires |images| == 4
    requires forall k :: 1 <= k < 4 ==>
      MergeWidth(images[k].header) == MergeWidth(images[0].header) &&
      MergeHeight(images[k].header) == MergeHeight(images[0].header)
    requires QuadrantsInBounds(images, MergeWidth(images[0].header), MergeHeight(images[0].header))
    ensures combined.header == MergedHeader()
    ensures |combined.pixels| == MergeWidth(images[0].header) * MergeHeight(images[0].header)
    ensures MergedRows(images, MergeWidth(images[0].header), MergeHeight(images[0].header),
                       combined.pixels, MergeHeight(images[0].header))
  {
    var width := MergeWidth(images[0].header);
    var height := MergeHeight(images[0].header);
    var pixels := [];
    for i := 0 to height
      invariant |pixels| == i * width
      invariant MergedRows(images, width, height, pixels, i)
    {
      for j := 0 to width
        invariant |pixels| == i * width + j
        invariant MergedRows(images, width, height, pixels, i)
        invariant MergedCols(images, width, height, pixels, i, j)
      {
        var quadrantIndex := if j < width / 2 then
            if i < height / 2 then 0 else 2
          else
            if i < height / 2 then 1 else 3;
        assert quadrantIndex == Quadrant(width, height, i, j);
        var pixel := images[quadrantIndex].pixels[CellIndex(width, i, j)];
        MergedAppend(images, width, height, pixels, i, j, pixel);
        pixels := pixels + [pixel];
      }
      MergedNextRow(images, width, height, pixels, i);
    }
    combined := Image(MergedHeader(), pixels);
  }
}
