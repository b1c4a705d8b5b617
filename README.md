# TGA image processor: codec and pixel engine

A Dafny model of the core of a small Rust image processor (`main.rs`). The processor reads
uncompressed true-colour TGA files (image type 2 of the Truevision TGA 2.0 format). Each file
is read as an 18-byte header followed by 3-byte pixels stored blue, green, red. TGA 2.0 puts an
image ID field of `id_length` bytes between the header and the pixels; the codec ignores
`id_length` and reads every byte after byte 18 as pixel data, and the model does the same
(`DecodeTreatsIdFieldAsPixels`). The processor blends and rearranges the decoded pixels and
writes the result back as a TGA file.

Modules, one file each:

- `ByteMath` (`bytemath.dfy`): the `u8` channel type, Rust's saturating `u8` add, subtract and
  multiply, and `Round255`, the integer nearest to p / 255.
- `Tga` (`tga.dfy`): the `Header` and `Pixel` data and `Image` (the source's `Data`: a header
  and its pixels), the header layout (`to_bytes`), the positional header parse, `make_pixels`,
  the pixel-writing loop of `write_tga`, and the in-memory halves of `read_tga` and `write_tga` (`ReadTga`, `WriteTga`). Both directions of
  the round trip are proved.
- `Blend` (`blend.dfy`): multiply, subtract, screen and overlay. Each has a per-channel formula
  with lemmas (identities, symmetry, darken and lighten bounds, overlay as multiply or screen),
  and a loop method proved pointwise against it.
- `Channels` (`channels.dfy`): the per-channel extraction loops, `combine_channels`, and the two
  in-place adjustments: green + 200, and red × 4 with blue cleared. Both saturate.
- `Geometry` (`geometry.dfy`): `flip` and the quadrant merge `combine_images`, both as nested
  row/column loops proved cell by cell.

Each `panic!` in the compositor, and each out-of-range index, becomes a `requires` that states
exactly when the source would panic. Decoding a buffer shorter than 18 bytes gives the result
`Failure(Truncated)`; the source's slice panics on such a buffer.

The float blends are modelled with exact integer rounding, `Round255(x) = (2x + 255) / 510`,
the integer nearest to x / 255:

- Multiply, screen, and overlay with a bottom value below 128 round x / 255 in `f32`, where x is
  an integer product: t·b, (255−t)(255−b) or 2·t·b. Screen then subtracts the rounded value from
  255.
- Overlay with a bottom value of 128 or more rounds 255 − 2(255−t)(255−b)/255. That is
  (255·255 − 2(255−t)(255−b)) / 255, and the model rounds it in that form.

In every case the exact value is an integer over 255. Since 255 is odd, such a value is never
exactly halfway between two integers, so it is always at least 1/510 from a half. In `f32` the
products are exact, because every one is an integer below 2²⁴. The division and the subtraction
together err by less than 2·10⁻⁵, far below 1/510, so the source and the model round the same
way. Every result already lies in 0..255, so the saturating `as u8` cast never clips.

Header bytes used as dimensions are modelled as written:

- `flip` takes its width and height from image-details bytes 0 and 1. Under TGA 2.0 those are
  the two bytes of the X origin (field 5.1), so a file with origin 0 flips to no pixels.
- `combine_images` takes them from bytes 8 and 9, the pixel depth (field 5.5) and the image
  descriptor (field 5.6). For a 24-bit file with descriptor 0 the merge has no pixels.
- The merged header declares a 1024 × 1024, 24-bit image. The merge itself holds
  w·h ≤ 255·255 pixels, copied from the same positions of the four inputs; nothing is
  scaled or tiled. `MergedHeaderDeclaresOtherSize` proves the declared size never matches.

Two more consequences of what the code does:

- `flip` only indexes the pixels, so the model requires w·h ≤ the pixel count, not equality.
- `combine_images` produces a w × h image, not a double-size tiling.

## Model

| member | source | states |
|---|---|---|
| `ByteMath.SaturatingAdd` | main.rs:605 | the sum capped at 255: at most x + y, and equal to it unless it is 255 |
| `ByteMath.SaturatingSub` | main.rs:195-197 | the difference floored at 0: at least x − y, and equal to it unless it is 0 |
| `ByteMath.SaturatingMul` | main.rs:624 | the product capped at 255: at most x·y, and equal to it unless it is 255 |
| `ByteMath.Round255` | main.rs:161-163 | the result is within half a unit of p / 255, i.e. p / 255 rounded to nearest, and at most 255 when p ≤ 255·255 |
| `Tga.HeaderBytes` | main.rs:24-32 | the header always lays out as exactly 18 bytes |
| `Tga.ToBytes` | main.rs:24-32 | bytes 0, 1, 2 are id length, colour-map type and image type; 3–7 are the colour-map details; 8–17 are the image details; the positional parse reads the header back |
| `Tga.ParseHeader` | main.rs:67-77 | fields are read by position from the first 18 bytes, so laying the parsed header out again reproduces exactly those bytes |
| `Tga.ParseHeaderBytes` | main.rs:67-77 | the positional parse inverts the 18-byte layout: parse(layout(h)) = h |
| `Tga.HeaderBytesOfParse` | main.rs:64-77 | the layout inverts the parse: layout(parse(b)) = b for any 18 bytes |
| `Tga.DecodePixels` | main.rs:87-103 | exactly ⌊n/3⌋ pixels, pixel k = (b[3k], b[3k+1], b[3k+2]) as blue, green, red |
| `Tga.MakePixels` | main.rs:87-103 | the stride-3 loop yields exactly ⌊n/3⌋ pixels, pixel k built from bytes 3k, 3k+1, 3k+2, equal to DecodePixels |
| `Tga.DecodePixelsDropsPartial` | main.rs:90-98 | a trailing 1–2 bytes is dropped silently: decoding equals decoding the whole triplets only |
| `Tga.PixelBytes` | main.rs:114-120 | 3 bytes per pixel, byte 3k/3k+1/3k+2 is pixel k's blue/green/red |
| `Tga.SerializePixels` | main.rs:114-120 | the write loop produces 3n bytes equal to PixelBytes |
| `Tga.PixelsRoundTrip` | main.rs:114-120 | decoding the written pixel bytes gives back the pixels |
| `Tga.PixelBytesRoundTrip` | main.rs:87-103 | re-writing the decoded pixels of a region with no partial triplet gives back the region |
| `Tga.Encode` | main.rs:123-131 | the file is the header then the pixels, 18 + 3n bytes long |
| `Tga.Decode` | main.rs:56-84 | fails exactly when fewer than 18 bytes; otherwise the header re-lays out as the first 18 bytes and there are ⌊(n−18)/3⌋ pixels |
| `Tga.DecodeEncode` | main.rs:106-131 | decoding an encoded image returns the same header and pixels |
| `Tga.EncodeDecode` | main.rs:56-84 | a file with no partial pixel is re-encoded to exactly its bytes |
| `Tga.DecodeIgnoresPartialPixel` | main.rs:87-103 | a file's 1–2 bytes past its last whole pixel do not affect the decoded image |
| `Tga.DecodeTreatsIdFieldAsPixels` | main.rs:64-65 | the image ID field is not skipped: pixel 0 is always bytes 18–20, and the `id_length` byte changes no pixel |
| `Tga.ReadTga` | main.rs:56-84 | splitting, parsing the header and running make_pixels equals Decode |
| `Tga.WriteTga` | main.rs:106-131 | the bytes written are header bytes then pixel bytes, equal to Encode |
| `Blend.MultiplyChannel` | main.rs:161-163 | t·b/255 rounded to nearest |
| `Blend.SubtractChannel` | main.rs:195-197 | max(b − t, 0): the top value taken from the bottom one, never wrapping |
| `Blend.ScreenChannel` | main.rs:225-238 | 255 − round((255−t)(255−b)/255) |
| `Blend.OverlayChannel` | main.rs:272-291 | below 128 (that channel of the bottom pixel) round(2tb/255), from 128 up round(255 − 2(255−t)(255−b)/255) |
| `Blend.MultiplyIdentity` | main.rs:161-163 | multiplying by 255 is the identity, by 0 gives 0 |
| `Blend.MultiplyCommutes` | main.rs:161-163 | multiply is commutative |
| `Blend.MultiplyDarkens` | main.rs:161-163 | multiply is at most either input |
| `Blend.ScreenIsInvertedMultiply` | main.rs:225-238 | screen is inverse of multiply of inverses |
| `Blend.ScreenIdentity` | main.rs:225-238 | screening with 0 is the identity, with 255 gives 255 |
| `Blend.ScreenCommutes` | main.rs:225-238 | screen is commutative |
| `Blend.ScreenLightens` | main.rs:225-238 | screen is at least either input |
| `Blend.OverlayIsMultiplyOrScreen` | main.rs:272-291 | overlay is multiply with 2b below 128, screen with 2b − 255 from 128 up |
| `Blend.OverlayAt128` | main.rs:274-279 | the threshold is strict: 128 takes the screen branch, 127 the multiply branch |
| `Blend.PixelIdentities` | main.rs:156-170 | per pixel, multiply by white and screen with black are identities |
| `Blend.SubtractFloors` | main.rs:190-204 | (50,50,50) minus (200,200,200) is (0,0,0) |
| `Blend.MultiplyBlend` | main.rs:145-173 | requires equal lengths; output has that length and pixel i is the multiply of top[i] and bottom[i] |
| `Blend.SubtractBlend` | main.rs:178-207 | requires equal lengths; output pixel i is bottom[i] − top[i] per channel, floored at 0 |
| `Blend.ScreenBlend` | main.rs:210-248 | requires equal lengths; output pixel i is the screen of top[i] and bottom[i] |
| `Blend.OverlayBlend` | main.rs:251-301 | requires equal lengths; output pixel i is the overlay of top[i] and bottom[i] |
| `Channels.ExtractChannel` | main.rs:641-703 | same length; every output pixel repeats the chosen channel of its source pixel in all three channels |
| `Channels.CombineChannels` | main.rs:304-333 | requires three equal lengths; header of the blue input; pixel i = (blue[i].blue, green[i].green, red[i].red) |
| `Channels.RecombineExtracted` | main.rs:304-333 | combining the blue, green and red extractions of an image gives back its pixels |
| `Channels.AddToGreen` | main.rs:604-607 | in place: green := min(green + 200, 255), blue and red unchanged |
| `Channels.ScaleRedClearBlue` | main.rs:621-626 | in place: blue := 0, red := min(4·red, 255), green unchanged |
| `Channels.GreenBoost` | main.rs:605 | green + 200 saturates from 56 up and never decreases |
| `Channels.RedScale` | main.rs:624 | red × 4 saturates from 64 up and never decreases |
| `Geometry.Flip` | main.rs:335-354 | with w, h = details bytes 0, 1: requires w·h ≤ pixel count; returns w·h pixels with output[i·w+j] = input[(h−1−i)·w+j] |
| `Geometry.FlipWidth` | main.rs:339 | the width `flip` uses is file byte 8, the low byte of the X origin, below 256 |
| `Geometry.FlipHeight` | main.rs:340 | the height `flip` uses is file byte 9, the high byte of the X origin, below 256 |
| `Geometry.FlipRows` | main.rs:342-351 | the nested row and column loops of `flip`: requires w·h ≤ pixel count; returns w·h pixels with output[i·w+j] = input[(h−1−i)·w+j] |
| `Geometry.FlipTwice` | main.rs:343-350 | flipping twice returns the first w·h input pixels |
| `Geometry.FlipTwoRows` | main.rs:343-350 | an image of rows [A, B] flips to [B, A], columns unchanged |
| `Geometry.Quadrant` | main.rs:373-385 | the source index is below 4; it is odd iff j ≥ w/2 and at least 2 iff i ≥ h/2 |
| `Geometry.QuadrantCorners` | main.rs:373-385 | in a 4×4 merge the four corner cells come from images 0, 1, 2, 3 |
| `Geometry.MergedHeaderDeclaresOtherSize` | main.rs:394-406 | the merged header declares 1024×1024 at depth 24, more pixels than any byte-sized w·h |
| `Geometry.MergeWidth` | main.rs:359 | the width `combine_images` uses is file byte 16, the pixel-depth byte, below 256 |
| `Geometry.MergeHeight` | main.rs:360 | the height `combine_images` uses is file byte 17, the image-descriptor byte, below 256 |
| `Geometry.MergedHeader` | main.rs:395-406 | type 2, no ID field, no colour map, zero origin, declared 1024 × 1024 at depth 24, descriptor 0 |
| `Geometry.CombineImages` | main.rs:357-415 | with w, h = details bytes 8, 9 of image 0: requires all four to agree on them and every cell's index to be inside the image it reads; header is the synthetic one; w·h pixels; output[i·w+j] = images[quadrant(i,j)][i·w+j] |

## Left out

- File opening, reading, creating and writing, and their `io::Error` results (main.rs:56-61,
  106-112, 123-141). `ReadTga` takes the file's bytes and `WriteTga` returns the bytes that
  would be written.
- The `part1`…`part10`, `extra_credit` and `main` drivers, which fix file names and call
  sequences. Only the loops of `part6`, `part7` and `part8` are modelled, as `AddToGreen`,
  `ScaleRedClearBlue` and `ExtractChannel`.
- The test module, which only prints comparisons against files on disk, and the `Display`
  impl for `Pixel`, which only formats.
- `f32` arithmetic and the saturating `as u8` cast in the blends. They are replaced by exact
  integer rounding, which agrees with them on every input (see above).
- The `Pixels` wrapper struct. `Data` is modelled as `Image`, which holds a plain pixel
  sequence. The blends take and return pixel sequences directly, and `flip` returns the
  flipped pixels as the source does.
- The three extraction loops are one method taking the channel as a parameter.
