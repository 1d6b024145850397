# Canvas primitives of the photon image library, modelled in Dafny

This project models `crate/src/graphics.rs`, which holds two canvas primitives of the
photon image library:

- `create_image(width, height, background_color)` allocates a `PhotonImage`. Its
  `raw_pixels` is a flat, row-major RGBA8 byte buffer. Every pixel is the given
  colour with alpha fixed at 100, not 255.
- `draw_photonimage(container_img, photon_img, x_pos, y_pos)` composites one image onto
  another through the `image` crate's `overlay` routine. It then replaces only the
  container's `raw_pixels`.

The model is written in a functional style:

- `pixels.dfy` (module `Pixels`) defines the pixel-buffer data model. This covers
  `PhotonImage`, the `Valid` length invariant (`|raw_pixels| == width * height * 4`),
  the channel-position arithmetic `(y * width + x) * 4 + k`, and the correspondence
  between a grid of pixels and its flat bytes. `RawPixels` is the `raw_pixels()`
  flattening, and `PixelsOf` reads the bytes back as pixels.
- `graphics.dfy` (module `Graphics`) models the two primitives. `CreateImage` is a pure
  function. `DrawPhotonImage` is a pure function that returns the updated container.
  `DrawPhotonImageInPlace` is the same operation on a mutable `Canvas`, with the
  container borrowed mutably and the drawn image borrowed immutably.

The compositing routine belongs to an external library, so it is a parameter
(`overlay: Overlay`) rather than a definition. The only property assumed of it is
`KeepsGeometry`: on a valid container it returns `width * height * 4` bytes, because it
composites in place into an image built from the container. That assumption appears as a
hypothesis of the validity clause in `DrawPhotonImage`'s contract, so every other clause
holds for any overlay routine.

`create_image` has no error path: a zero width or height yields an empty, valid buffer,
and the model refuses no geometry.

## Model

| member | source | states |
|---|---|---|
| Graphics.FromPixel | crate/src/graphics.rs:17 | The `width` by `height` grid that `ImageBuffer::from_pixel` builds holds the given pixel at every in-bounds column `x` and row `y`, at row-major position `y * width + x`. |
| Graphics.CreateImage | crate/src/graphics.rs:14-21 | The canvas is valid (`width * height * 4` bytes). It carries the requested width and height unchanged. It is empty when either dimension is zero. Bytes `4i`, `4i+1` and `4i+2` of every pixel `i < width * height` are the colour's red, green and blue, and byte `4i+3` is the constant alpha 100. |
| Graphics.CreateImagePixels | crate/src/graphics.rs:16-17 | Every pixel of a fresh canvas, addressed by column and row within the geometry, is `[r, g, b, 100]`. |
| Graphics.CreateImageRepeatsPattern | crate/src/graphics.rs:16-20 | The canvas buffer is one four-byte pattern repeated: byte `j` is channel `j % 4` of the fill pixel. |
| Graphics.CreateImageUniform | crate/src/graphics.rs:17 | Any two pixels of a fresh canvas are equal. |
| Graphics.CreateImageReadsBack | crate/src/graphics.rs:17-20 | Reading the canvas bytes back as pixels gives exactly the `width * height` grid of fill pixels that the buffer was built from. |
| Graphics.DrawPhotonImage | crate/src/graphics.rs:26-32 | Drawing keeps the container's width and height. It replaces only the container's bytes, with what the overlay routine returns for this container, image and offset. If the overlay keeps the container's geometry, a valid container stays valid. |
| Graphics.DrawPhotonImageInPlace | crate/src/graphics.rs:26-32 | The in-place form changes only the container, to the result of `DrawPhotonImage`. The drawn image is left unchanged. Width and height are kept, and validity is kept under the overlay assumption. |
| Pixels.RawPixels | crate/src/graphics.rs:20 | Flattening a pixel grid gives four bytes per pixel, and byte `4i + k` is channel `k` (red, green, blue, alpha) of pixel `i`. |
| Pixels.PixelsOf | crate/src/graphics.rs:20 | The pixel view of a byte buffer, the inverse of the `raw_pixels()` flattening: a whole number of pixels gives one pixel per four bytes, and pixel `i` is bytes `4i`..`4i+3`. |
| Pixels.PixelsOfRawPixels | crate/src/graphics.rs:20 | Reading back a flattened grid gives the grid. |
| Pixels.RawPixelsOfPixels | crate/src/graphics.rs:20 | Flattening the pixels read from a buffer gives back the buffer. |
| Pixels.ChannelIndex | crate/src/graphics.rs:17-21 | The position of channel `k` of an in-bounds pixel `(x, y)` lies inside a buffer of `width * height * 4` bytes. |
| Pixels.ChannelIndexInverse | crate/src/graphics.rs:17-21 | The channel, column and row are recovered from a channel position as `i % 4`, `(i / 4) % width` and `(i / 4) / width`. |
| Pixels.ChannelIndexCovers | crate/src/graphics.rs:17-21 | Every byte of a `width * height * 4` buffer is a channel of an in-bounds pixel. |
| Pixels.ChannelIndexInjective | crate/src/graphics.rs:17-21 | Distinct (column, row, channel) triples occupy distinct bytes. |
| Pixels.PixelAtIsGridEntry | crate/src/graphics.rs:20-21 | Pixel `(x, y)` of a valid image is entry `y * width + x` of its row-major pixel grid. |

## Left out

- The compositing itself (`image::imageops::overlay`) is not modelled. Its clipping and float-based alpha blending live in the `image` crate. It is the `overlay` parameter, so no off-canvas, partial-overlay, idempotence or blending property is stated.
- Graphics.DrawPhotonImage: validity of the result rests on the assumed `KeepsGeometry` property of the library routine. That property is a hypothesis here, not a proved fact.
- `helpers::dyn_image_from_raw` is not part of this model. It is the conversion feeding the overlay routine, and it is folded into the `overlay` parameter.
- Graphics.CreateImage: does not model overflow of `width * height * 4` in the platform's `usize` or allocation failure. The code has no error path for either, so integers are unbounded.
- The `wasm_bindgen` attributes and the JavaScript binding glue are left out, because they carry no logic.
- The font, text-drawing and morphology imports are left out. They are unused in this file.
