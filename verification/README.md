# Watermark remover core, modelled in Dafny

This project models the two pieces of pure logic inside a browser watermark
remover.

- `calculateAlphaMap` turns an RGBA capture of the watermark into one opacity
  per pixel. Each entry is the brightest of the red, green and blue bytes over
  255. The function itself never reads the alpha byte.
- `WatermarkEngine` holds the 48 and 96 pixel reference images and a cache of
  alpha maps keyed by overlay size. Its `process` does three things. It picks
  the overlay size and a square anchored at a fixed inset from the bottom-right
  corner. It fills the cache for that size at most once. It then runs
  `removeWatermark` on two fresh copies of the canvas, and writes back only the
  second copy.

Files:

- `image.dfy` (module `Image`): the `ImageData` buffer (width, height, RGBA
  bytes). It also has `Capture`, the size x size buffer read back after the
  reference image is drawn at the origin of a fresh canvas.
- `alpha_map.dfy` (module `AlphaMap`): the alpha map. `AlphaMapOf` is the
  reference definition. `CalculateAlphaMap` is the code's loop, proved equal
  to it.
- `placement.dfy` (module `Placement`): the `config` computation, and lemmas
  saying exactly when the square lies inside the image.
- `engine.dfy` (module `Engine`): the engine state, the write-once cache, and
  the canvas/buffer sequencing of `process`.

The engine is a value, not an object. Filling the cache returns a new engine.
The canvas and the `ImageData` objects read from it form a `Context`.
`getImageData` appends a fresh copy of the canvas and returns its handle.
`removeWatermark` rewrites the buffer behind a handle. `putImageData` overwrites
the canvas with a buffer.

Facts about the code that the model makes explicit:

- The small square fits when both sides are at least 32 + 48 = 80
  (`Placement.SmallPlacementBounds`).
  A 100 x 100 image gets the square at (20, 20), which fits
  (`Placement.PlacementExamples`).
- The code never checks the placement. `Placement.PlacementBounds` states
  exactly when the square fits.
- The code calls `removeWatermark` twice. The first call works on a copy that is
  never written back, so the canvas receives exactly one application
  (`Engine.Process`, `Engine.FirstCallDiscarded`).
- An image with zero width or height gets through the cache block. The first
  `getImageData` then throws `IndexSizeError`, and `process` rejects
  (`Engine.Process`).
- `calculateAlphaMap` has no shape check. It accepts any well-formed
  `ImageData`, square or not.
- Reading a canvas back loses the colour of fully transparent pixels. A
  reference pixel with alpha 0 is therefore captured as transparent black, and
  its alpha-map entry is 0 (`Engine.TransparentReferencePixel`). So the
  reference's alpha byte does matter, through the capture.

## Model

| member | source | states |
|---|---|---|
| `AlphaMap.Max3` | alphaMap.js:6 | `Math.max` of three channels is at least each of them and equals one of them |
| `AlphaMap.PixelAlpha` | alphaMap.js:5-6 | a pixel's opacity lies in [0,1]; it is 1 exactly when some RGB channel is 255, and 0 exactly when all three are 0 |
| `AlphaMap.AlphaMapOf` | alphaMap.js:3-6 | the alpha map has one entry per pixel (`width*height`), each in [0,1] |
| `AlphaMap.CalculateAlphaMap` | alphaMap.js:1-9 | the loop over a zero-filled array yields `width*height` entries, entry `i` being `max(data[4i], data[4i+1], data[4i+2]) / 255`, the same as the reference definition |
| `AlphaMap.AlphaByteIgnored` | alphaMap.js:5-6 | two captures that agree on every RGB byte have the same alpha map, whatever their alpha bytes |
| `AlphaMap.AlphaByteUpdate` | alphaMap.js:5-6 | overwriting any pixel's alpha byte leaves the alpha map unchanged |
| `AlphaMap.AlphaMonotone` | alphaMap.js:6 | raising one RGB channel of pixel `p` never lowers entry `p`, and leaves every other entry unchanged |
| `Image.Capture` | engine.js:49-55 | the captured buffer is size x size and well-formed; its transparent pixels are black; if the reference already has that size, each visible pixel is copied and each transparent one blanked, and a reference whose transparent pixels are already black is captured unchanged |
| `Image.CaptureExactSize` | engine.js:53-55 | drawing an image of exactly the canvas size at the origin and reading it back copies every visible pixel and turns every fully transparent pixel into (0,0,0,0) |
| `Image.CaptureTransparentIsBlack` | engine.js:53-55 | every captured pixel whose alpha reads back as 0 is transparent black |
| `Image.CaptureIdentity` | engine.js:53-55 | an exact-size reference whose transparent pixels are already black reads back byte for byte |
| `Placement.SelectPlacement` | engine.js:38-46 | size is 96 exactly when width and height both exceed 1024, else 48; the square is `size` wide and high; its right and bottom edges sit at the margin (64 or 32) from the image's edges |
| `Placement.PlacementBounds` | engine.js:38-46 | the right and bottom edges always fit; the square fits entirely exactly when both sides reach margin + size |
| `Placement.SmallPlacementBounds` | engine.js:38-43 | for the small variant the square fits exactly when both sides are at least 80 |
| `Placement.LargePlacementInBounds` | engine.js:38-43 | every large image holds its square, with the corner at x, y >= 865 |
| `Placement.PlacementExamples` | engine.js:38-46 | 2000 x 2000 gives (96, 1840, 1840); 500 x 500 gives (48, 420, 420); 100 x 100 gives (48, 20, 20), which fits; 1025 x 79 gives y = -1, which does not |
| `Engine.NewEngine` | engine.js:5-9 | the constructor keeps both references and starts with an empty cache, which is consistent |
| `Engine.EnsureAlphaMap` | engine.js:48-57 | afterwards the size has an entry; an existing entry is unchanged; a new one is the alpha map of the size x size capture of `bg48` (size 48) or `bg96` (otherwise), of length size*size; other keys are untouched; consistency is preserved |
| `Engine.EnsureAlphaMapIdempotent` | engine.js:48-57 | running the cache block twice for a size is the same as running it once |
| `Engine.CachedAlphaMapIsFresh` | engine.js:48-57 | in a consistent engine the cached entry equals a fresh computation, and so equals the entry a new engine would compute |
| `Engine.Process` | engine.js:38-67 | the cache is filled as by the cache block in every case; the run is rejected with `IndexSizeError` exactly when the image has zero width or height; otherwise the canvas ends up holding exactly one application of `removeWatermark` to the original pixels |
| `Engine.FirstCallDiscarded` | engine.js:59-67 | on success, the first call's result stays in its own, never written-back buffer, and the canvas is the second buffer |
| `Engine.ProcessIndependentOfCache` | engine.js:48-67 | processing keeps the cache consistent, and the outcome equals the one a newly constructed engine would produce |
| `Engine.TransparentReferencePixel` | engine.js:53-55 | a fully transparent pixel of an exact-size reference gets alpha-map entry 0, whatever its colour bytes |

## Left out

- Asset loading in `create` (engine.js:11-24) and image decoding in `process`
  (engine.js:26-31): asynchronous browser I/O. The engine is built from the two
  reference images, and `process` starts from the decoded image.
- Canvas creation and drawing of the input image (engine.js:32-36): the canvas
  is taken to hold the decoded image, pixel for pixel.
- Image.Capture: models `drawImage(bg, 0, 0)` onto a transparent canvas as a
  copy of the covered pixels, with fully transparent pixels and the uncovered
  rest read back as (0,0,0,0). It leaves out colour management and the rounding
  that premultiplied storage applies to partly transparent pixels.
- Engine.Process: the canvas holds `remove(image, ...)` exactly only for fully
  opaque pixels. `getImageData` and `putImageData` also pass partly or fully
  transparent pixels through premultiplied storage, which the model leaves out.
- Engine.Process: assumes `removeWatermark` writes only to its first argument
  and is deterministic. Both calls receive the same cached alpha map and the
  same `config` object by reference, and the model cannot express a change to
  either. `Engine.FirstCallDiscarded` and `Engine.ProcessIndependentOfCache`
  rest on the same assumption.
- PNG encoding and the returned object (engine.js:69-72): I/O.
- The body of `removeWatermark`: `blendModes.js` is not part of this model. It
  is the function parameter `Remover`, and its result replaces the buffer it
  was given, which stands for the in-place update.
- AlphaMap.CalculateAlphaMap: entries are exact reals. The rounding of the
  `Float32Array` entries to single precision is not modelled.
- AlphaMap.CalculateAlphaMap: requires a well-formed `ImageData`, whose byte
  length is `4 * width * height`. Every buffer `getImageData` returns is one.
- The input buffer of `calculateAlphaMap` is never modified. In the model this
  holds by construction, because buffers are immutable sequences.
- `app.js` (DOM wiring, toasts, drag-and-drop, download links): user interface.
