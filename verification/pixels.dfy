/**
 The RGBA8 pixel-buffer model shared by the canvas primitives.

 A `PhotonImage` is a flat byte buffer plus its geometry. Pixels are stored
 row-major, top row first, four bytes per pixel in the order red, green,
 blue, alpha, so channel `k` of pixel `(x, y)` sits at byte
 `(y * width + x) * 4 + k`.
 */
module Pixels {

  /** An unsigned 8-bit channel value. */
  type byte = x: int | 0 <= x < 0x100

  /** An unsigned 32-bit dimension or coordinate. */
  type u32 = x: int | 0 <= x < 0x1_0000_0000

  /** A colour without alpha, as callers pass it to the canvas allocator. */
  datatype Rgb = Rgb(r: byte, g: byte, b: byte)

  /** One RGBA8 pixel. */
  datatype Rgba = Rgba(r: byte, g: byte, b: byte, a: byte) {

    /** Channel `k` in buffer order: 0 red, 1 green, 2 blue, 3 alpha. */
    function Channel(k: nat): byte
      requires k < 4
    {
      if k == 0 then r else if k == 1 then g else if k == 2 then b else a
    }
  }

  /** An image: its raw RGBA8 bytes and its width and height in pixels. */
  datatype PhotonImage = PhotonImage(raw_pixels: seq<byte>, width: u32, height: u32)

  /** The buffer holds exactly four bytes for every pixel of the geometry. */
  predicate Valid(img: PhotonImage) {
    |img.raw_pixels| == img.width * img.height * 4
  }

  /** Byte offset of channel `k` of the pixel numbered `i` in row-major order. */
  function Offset(i: nat, k: nat): nat {
    4 * i + k
  }

  /** Multiplication by a non-negative factor is monotone. */
  lemma MulMonotone(a: int, b: int, c: int)
    requires a <= b && 0 <= c
    ensures a * c <= b * c
  {
    assert b * c - a * c == (b - a) * c;
  }

  /** Division of `n` by `d` is determined by any quotient/remainder pair. */
  lemma DivModUnique(n: int, d: int, q: int, m: int)
    requires 0 < d && 0 <= m < d && n == q * d + m
    ensures n / d == q && n % d == m
  {
    var q', m' := n / d, n % d;
    assert n == q' * d + m';
    if q' > q {
      MulMonotone(q + 1, q', d);
      assert false;
    } else if q' < q {
      MulMonotone(q' + 1, q, d);
      assert false;
    }
  }

  /** A pixel number below `width * height` lies in a row below `height`. */
  lemma RowInBounds(p: nat, width: nat, height: nat)
    requires 0 < width && p < width * height
    ensures p / width < height
  {
    if p / width >= height {
      MulMonotone(height, p / width, width);
      assert false;
    }
  }

  /** Splitting an offset gives back the pixel number and the channel. */
  lemma OffsetSplits(i: nat, k: nat)
    requires k < 4
    ensures Offset(i, k) / 4 == i && Offset(i, k) % 4 == k
  {
    DivModUnique(Offset(i, k), 4, i, k);
  }

  /** Every byte offset is the offset of some channel of some pixel. */
  lemma OffsetCovers(j: nat)
    ensures Offset(j / 4, j % 4) == j
  {
  }

  /** A pixel inside the geometry has a number below `width * height`. */
  lemma PixelNumberInBounds(width: nat, height: nat, x: nat, y: nat)
    requires x < width && y < height
    ensures y * width + x < width * height
  {
    MulMonotone(y + 1, height, width);
    assert (y + 1) * width == y * width + width;
  }

  /** Row-major number of pixel `(x, y)` of a `width` by `height` image. */
  function PixelNumber(width: nat, height: nat, x: nat, y: nat): (i: nat)
    requires x < width && y < height
    ensures i < width * height
  {
    PixelNumberInBounds(width, height, x, y);
    y * width + x
  }

  /**
   Position of channel `k` of pixel `(x, y)` in the buffer of a
   `width` by `height` image: the channel of pixel number `y * width + x`.
   */
  function ChannelIndex(width: nat, height: nat, x: nat, y: nat, k: nat): (i: nat)
    requires x < width && y < height && k < 4
    ensures i < width * height * 4
  {
    Offset(PixelNumber(width, height, x, y), k)
  }

  /** Column, row and channel are recovered from a channel's position alone. */
  lemma ChannelIndexInverse(width: nat, height: nat, x: nat, y: nat, k: nat)
    requires x < width && y < height && k < 4
    ensures ChannelIndex(width, height, x, y, k) % 4 == k
    ensures (ChannelIndex(width, height, x, y, k) / 4) % width == x
    ensures (ChannelIndex(width, height, x, y, k) / 4) / width == y
  {
    OffsetSplits(y * width + x, k);
    DivModUnique(y * width + x, width, y, x);
  }

  /**
   Every byte of a buffer of `width * height` pixels is channel `j % 4` of the
   pixel in column `(j / 4) % width` and row `(j / 4) / width`.
   */
  lemma ChannelIndexCovers(width: nat, height: nat, j: nat)
    requires 0 < width && j < width * height * 4
    ensures (j / 4) / width < height
    ensures ChannelIndex(width, height, (j / 4) % width, (j / 4) / width, j % 4) == j
  {
    var p := j / 4;
    var area := width * height;
    assert p < area;
    RowInBounds(p, width, height);
    assert p == (p / width) * width + p % width;
    OffsetCovers(j);
  }

  /** Distinct channels of distinct pixels never share a byte. */
  lemma ChannelIndexInjective(width: nat, height: nat, x: nat, y: nat, k: nat, x': nat, y': nat, k': nat)
    requires x < width && y < height && k < 4 && x' < width && y' < height && k' < 4
    requires ChannelIndex(width, height, x, y, k) == ChannelIndex(width, height, x', y', k')
    ensures x == x' && y == y' && k == k'
  {
    ChannelIndexInverse(width, height, x, y, k);
    ChannelIndexInverse(width, height, x', y', k');
  }

  /**
   Flattens a row-major grid of pixels into the byte buffer an image stores
   (the `raw_pixels` view of an image buffer).
   */
  function RawPixels(grid: seq<Rgba>): (bytes: seq<byte>)
    ensures |bytes| == 4 * |grid|
    ensures forall i, k :: 0 <= i < |grid| && 0 <= k < 4 ==>
              bytes[Offset(i, k)] == grid[i].Channel(k)
  {
    if |grid| == 0 then []
    else
      var p := grid[0];
      var rest := RawPixels(grid[1..]);
      assert forall i, k :: 1 <= i < |grid| && 0 <= k < 4 ==>
          rest[Offset(i - 1, k)] == grid[i].Channel(k);
      [p.r, p.g, p.b, p.a] + rest
  }

  /** A non-empty whole number of pixels has a first pixel and whole pixels after it. */
  lemma DropPixel(n: nat)
    requires n % 4 == 0 && n > 0
    ensures n >= 4 && (n - 4) % 4 == 0
  {
    DivModUnique(n, 4, n / 4, 0);
    DivModUnique(n - 4, 4, n / 4 - 1, 0);
  }

  /** Reads a byte buffer back as a row-major grid of pixels. */
  function PixelsOf(bytes: seq<byte>): (grid: seq<Rgba>)
    requires |bytes| % 4 == 0
    ensures |grid| * 4 == |bytes|
    ensures forall i :: 0 <= i < |grid| ==>
              grid[i] == Rgba(bytes[Offset(i, 0)], bytes[Offset(i, 1)],
                              bytes[Offset(i, 2)], bytes[Offset(i, 3)])
  {
    if |bytes| == 0 then []
    else
      DropPixel(|bytes|);
      var rest := PixelsOf(bytes[4..]);
      [Rgba(bytes[0], bytes[1], bytes[2], bytes[3])] + rest
  }

  /** Reading a flattened grid gives back the grid. */
  lemma {:induction false} PixelsOfRawPixels(grid: seq<Rgba>)
    ensures PixelsOf(RawPixels(grid)) == grid
  {
    var back := PixelsOf(RawPixels(grid));
    assert |back| == |grid|;
    forall i | 0 <= i < |grid|
      ensures back[i] == grid[i]
    {
      assert RawPixels(grid)[Offset(i, 0)] == grid[i].Channel(0);
      assert RawPixels(grid)[Offset(i, 1)] == grid[i].Channel(1);
      assert RawPixels(grid)[Offset(i, 2)] == grid[i].Channel(2);
      assert RawPixels(grid)[Offset(i, 3)] == grid[i].Channel(3);
    }
  }

  /** Flattening the grid read from a buffer gives back the buffer. */
  lemma {:induction false} RawPixelsOfPixels(bytes: seq<byte>)
    requires |bytes| % 4 == 0
    ensures RawPixels(PixelsOf(bytes)) == bytes
  {
    var grid := PixelsOf(bytes);
    var back := RawPixels(grid);
    assert |back| == |bytes|;
    forall j | 0 <= j < |bytes|
      ensures back[j] == bytes[j]
    {
      var i, k := j / 4, j % 4;
      OffsetCovers(j);
      assert back[Offset(i, k)] == grid[i].Channel(k);
    }
  }

  /**
   The pixel at column `x` and row `y` of a valid image, read from the four
   bytes the row-major layout assigns to it.
   */
  function PixelAt(img: PhotonImage, x: nat, y: nat): Rgba
    requires Valid(img) && x < img.width && y < img.height
  {
    var w, h := img.width, img.height;
    Rgba(img.raw_pixels[ChannelIndex(w, h, x, y, 0)], img.raw_pixels[ChannelIndex(w, h, x, y, 1)],
         img.raw_pixels[ChannelIndex(w, h, x, y, 2)], img.raw_pixels[ChannelIndex(w, h, x, y, 3)])
  }

  /** Pixel `(x, y)` of a valid image is entry `y * width + x` of its grid. */
  lemma PixelAtIsGridEntry(img: PhotonImage, x: nat, y: nat)
    requires Valid(img) && x < img.width && y < img.height
    ensures y * img.width + x < img.width * img.height
    ensures PixelAt(img, x, y) == PixelsOf(img.raw_pixels)[y * img.width + x]
  {
    var w: nat, h: nat := img.width, img.height;
    var i := y * w + x;
    PixelNumberInBounds(w, h, x, y);
    var area := w * h;
    assert |img.raw_pixels| == area * 4;
    var grid := PixelsOf(img.raw_pixels);
    assert i < |grid|;
    assert ChannelIndex(w, h, x, y, 0) == Offset(i, 0);
    assert ChannelIndex(w, h, x, y, 1) == Offset(i, 1);
    assert ChannelIndex(w, h, x, y, 2) == Offset(i, 2);
    assert ChannelIndex(w, h, x, y, 3) == Offset(i, 3);
  }
}
