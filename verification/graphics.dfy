/**
 The two canvas primitives: allocating a solid-colour canvas and drawing one
 image onto another at a pixel offset.
 */
module Graphics {
  import opened Pixels

  /** The fixed alpha of every freshly allocated canvas pixel (not opaque 255). */
  const CanvasAlpha: byte := 100

  /** The pixel a canvas is filled with: the caller's colour at alpha 100. */
  function CanvasPixel(c: Rgb): Rgba {
    Rgba(c.r, c.g, c.b, CanvasAlpha)
  }

  /** A `width` by `height` row-major grid holding `p` at every position. */
  function FromPixel(width: u32, height: u32, p: Rgba): (grid: seq<Rgba>)
    ensures forall x: nat, y: nat :: x < width && y < height ==>
              PixelNumber(width, height, x, y) < |grid| && grid[PixelNumber(width, height, x, y)] == p
  {
    seq(width * height, _ => p)
  }

  /**
   Allocates a `width` by `height` canvas filled with `c` at alpha 100. No
   geometry is refused: a zero width or height yields an empty buffer.
   */
  function CreateImage(width: u32, height: u32, c: Rgb): (img: PhotonImage)
    ensures Valid(img)
    ensures img.width == width && img.height == height
    ensures width == 0 || height == 0 ==> img.raw_pixels == []
    ensures forall i :: 0 <= i < width * height ==>
              && img.raw_pixels[Offset(i, 0)] == c.r
              && img.raw_pixels[Offset(i, 1)] == c.g
              && img.raw_pixels[Offset(i, 2)] == c.b
              && img.raw_pixels[Offset(i, 3)] == CanvasAlpha
  {
    var grid := FromPixel(width, height, CanvasPixel(c));
    PhotonImage(RawPixels(grid), width, height)
  }

  /** Every pixel of a fresh canvas, addressed by column and row, is the fill. */
  lemma CreateImagePixels(width: u32, height: u32, c: Rgb)
    ensures forall x: nat, y: nat :: x < width && y < height ==>
              PixelAt(CreateImage(width, height, c), x, y) == CanvasPixel(c)
  {
    var img := CreateImage(width, height, c);
    forall x: nat, y: nat | x < width && y < height
      ensures PixelAt(img, x, y) == CanvasPixel(c)
    {
      PixelNumberInBounds(width, height, x, y);
    }
  }

  /**
   A fresh canvas is one four-byte pattern repeated: byte `j` is channel
   `j % 4` of the fill pixel.
   */
  lemma CreateImageRepeatsPattern(width: u32, height: u32, c: Rgb)
    ensures forall j :: 0 <= j < |CreateImage(width, height, c).raw_pixels| ==>
              CreateImage(width, height, c).raw_pixels[j] == CanvasPixel(c).Channel(j % 4)
  {
    var bytes := CreateImage(width, height, c).raw_pixels;
    forall j | 0 <= j < |bytes|
      ensures bytes[j] == CanvasPixel(c).Channel(j % 4)
    {
      OffsetCovers(j);
      assert bytes[Offset(j / 4, j % 4)] == FromPixel(width, height, CanvasPixel(c))[j / 4].Channel(j % 4);
    }
  }

  /** Any two pixels of a fresh canvas are equal. */
  lemma CreateImageUniform(width: u32, height: u32, c: Rgb, x: nat, y: nat, x': nat, y': nat)
    requires x < width && y < height && x' < width && y' < height
    ensures PixelAt(CreateImage(width, height, c), x, y) == PixelAt(CreateImage(width, height, c), x', y')
  {
    CreateImagePixels(width, height, c);
  }

  /** Reading a fresh canvas back as pixels gives the grid it was filled from. */
  lemma CreateImageReadsBack(width: u32, height: u32, c: Rgb)
    ensures PixelsOf(CreateImage(width, height, c).raw_pixels) == FromPixel(width, height, CanvasPixel(c))
  {
    PixelsOfRawPixels(FromPixel(width, height, CanvasPixel(c)));
  }

  /**
   The compositing library routine as this model sees it: given the
   container, the image drawn onto it and the offset, the bytes of the
   composited container. Its blending and clipping are not modelled.
   */
  type Overlay = (PhotonImage, PhotonImage, u32, u32) -> seq<byte>

  /**
   The one property assumed of the library routine: it composites in place
   into an image of the container's geometry, so on a valid container it
   yields exactly `width * height * 4` bytes.
   */
  ghost predicate KeepsGeometry(overlay: Overlay) {
    forall dst: PhotonImage, src: PhotonImage, x: u32, y: u32 :: Valid(dst) ==>
      |overlay(dst, src, x, y)| == dst.width * dst.height * 4
  }

  /**
   Draws `photon` onto `container` with its top-left pixel at `(x, y)`: only
   the container's bytes are replaced, by what the overlay routine returns.
   */
  function DrawPhotonImage(container: PhotonImage, photon: PhotonImage, x: u32, y: u32,
                           overlay: Overlay): (drawn: PhotonImage)
    ensures drawn.width == container.width && drawn.height == container.height
    ensures drawn.raw_pixels == overlay(container, photon, x, y)
    ensures KeepsGeometry(overlay) && Valid(container) ==> Valid(drawn)
  {
    container.(raw_pixels := overlay(container, photon, x, y))
  }

  /** A mutable image, owned by one caller and borrowed by the drawing call. */
  class Canvas {
    var image: PhotonImage

    constructor(image: PhotonImage)
      ensures this.image == image
    {
      this.image := image;
    }
  }

  /**
   The in-place form of drawing: the container is borrowed mutably and the
   drawn image immutably, so they are distinct and only the container changes.
   */
  method DrawPhotonImageInPlace(container: Canvas, photon: Canvas, x: u32, y: u32, overlay: Overlay)
    requires container != photon
    modifies container
    ensures container.image == DrawPhotonImage(old(container.image), photon.image, x, y, overlay)
    ensures container.image.width == old(container.image.width)
    ensures container.image.height == old(container.image.height)
    ensures photon.image == old(photon.image)
    ensures KeepsGeometry(overlay) && Valid(old(container.image)) ==> Valid(container.image)
  {
    var pixels := overlay(container.image, photon.image, x, y);
    container.image := container.image.(raw_pixels := pixels);
  }
}
