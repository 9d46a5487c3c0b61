/**
 `WatermarkEngine`: two reference captures of the watermark (the 48 and 96
 pixel variants), a cache of alpha maps keyed by overlay size that is filled
 at most once per key, and the per-image pipeline of `process`.

 The engine is a value: an operation that changes the cache returns the new
 engine. The browser canvas and the `ImageData` buffers read from it are a
 `Context`: `getImageData` appends a fresh copy of the canvas and yields its
 handle, `removeWatermark` rewrites the buffer behind a handle, and
 `putImageData` overwrites the canvas with a buffer.
 */
module Engine {
  import opened Image
  import opened AlphaMap
  import opened Placement

  /** `removeWatermark(imageData, alphaMap, config)`, whose body is not part of
      this model: any function from a buffer, an alpha map and a placement to the
      buffer it leaves behind. */
  type Remover = (ImageData, seq<real>, Config) -> ImageData

  datatype EngineState = EngineState(bg48: ImageData, bg96: ImageData, alphaMaps: map<nat, seq<real>>)

  /** Both reference captures are well-formed buffers. */
  ghost predicate Wf(e: EngineState) {
    e.bg48.Valid() && e.bg96.Valid()
  }

  /** The reference image drawn for an overlay size: `bg48` for 48, `bg96` otherwise. */
  function Reference(e: EngineState, size: nat): ImageData {
    if size == 48 then e.bg48 else e.bg96
  }

  /** The alpha map computed from scratch for an overlay size. */
  function FreshAlphaMap(e: EngineState, size: nat): seq<real>
    requires Wf(e)
  {
    AlphaMapOf(Capture(Reference(e, size), size))
  }

  /** Every cached entry is what a fresh computation for its key would give. */
  ghost predicate Consistent(e: EngineState) {
    && Wf(e)
    && forall k :: k in e.alphaMaps ==> e.alphaMaps[k] == FreshAlphaMap(e, k)
  }

  /** `new WatermarkEngine(bg48, bg96)`: the references are kept and the cache is empty. */
  function NewEngine(bg48: ImageData, bg96: ImageData): (e: EngineState)
    ensures e.alphaMaps == map[]
    ensures Reference(e, 48) == bg48 && Reference(e, 96) == bg96
    ensures bg48.Valid() && bg96.Valid() ==> Consistent(e)
  {
    EngineState(bg48, bg96, map[])
  }

  /** The cache block of `process`: compute and store the alpha map for `size`
      only when no entry exists for it. */
  function EnsureAlphaMap(e: EngineState, size: nat): (e': EngineState)
    requires Wf(e)
    ensures e'.bg48 == e.bg48 && e'.bg96 == e.bg96 && Wf(e')
    ensures size in e'.alphaMaps
    ensures size in e.alphaMaps ==> e'.alphaMaps[size] == e.alphaMaps[size]
    ensures size !in e.alphaMaps ==> e'.alphaMaps[size] == AlphaMapOf(Capture(Reference(e, size), size))
    ensures size !in e.alphaMaps ==> |e'.alphaMaps[size]| == size * size
    ensures forall k :: k != size ==> (k in e'.alphaMaps <==> k in e.alphaMaps)
    ensures forall k :: k != size && k in e.alphaMaps ==> e'.alphaMaps[k] == e.alphaMaps[k]
    ensures Consistent(e) ==> Consistent(e')
  {
    if size in e.alphaMaps then e
    else e.(alphaMaps := e.alphaMaps[size := FreshAlphaMap(e, size)])
  }

  /** Filling the cache for a size a second time changes nothing. */
  lemma EnsureAlphaMapIdempotent(e: EngineState, size: nat)
    requires Wf(e)
    ensures EnsureAlphaMap(EnsureAlphaMap(e, size), size) == EnsureAlphaMap(e, size)
  {
  }

  /** In a consistent engine the cached entry for a size never depends on the
      order in which earlier requests filled the cache. */
  lemma CachedAlphaMapIsFresh(e: EngineState, size: nat)
    requires Consistent(e)
    ensures EnsureAlphaMap(e, size).alphaMaps[size] == FreshAlphaMap(e, size)
    ensures EnsureAlphaMap(e, size).alphaMaps[size]
         == EnsureAlphaMap(NewEngine(e.bg48, e.bg96), size).alphaMaps[size]
  {
  }

  /** In a reference image of exactly the overlay size, a fully transparent
      pixel reads back as transparent black, so its alpha-map entry is 0
      whatever colour bytes it carries. */
  lemma TransparentReferencePixel(e: EngineState, size: nat, p: nat)
    requires Wf(e) && Reference(e, size).width == size && Reference(e, size).height == size
    requires p < size * size && Reference(e, size).Channel(p, AlphaChannel) == 0
    ensures FreshAlphaMap(e, size)[p] == 0.0
  {
    var cap := Capture(Reference(e, size), size);
    assert cap.Channel(p, AlphaChannel) == 0;
  }

  /** The canvas and the ImageData buffers read from it so far. */
  datatype Context = Context(canvas: ImageData, buffers: seq<ImageData>)

  /** What `getImageData` hands back: a new buffer's handle, or the
      `IndexSizeError` it throws for a zero-width or zero-height region. */
  datatype Read = Read(ctx: Context, handle: nat) | ReadFailed

  /** What `process` ends with: the canvas context, or the rejection caused by
      the `IndexSizeError`. */
  datatype Outcome = Processed(ctx: Context) | IndexSizeError

  /** `ctx.getImageData(0, 0, width, height)`: a fresh copy of the whole canvas. */
  function GetImageData(ctx: Context): Read {
    if ctx.canvas.width == 0 || ctx.canvas.height == 0 then ReadFailed
    else Read(Context(ctx.canvas, ctx.buffers + [ctx.canvas]), |ctx.buffers|)
  }

  /** `removeWatermark(buffer, alphaMap, config)`, rewriting the buffer in place. */
  function RemoveWatermark(ctx: Context, h: nat, am: seq<real>, config: Config, remove: Remover): Context
    requires h < |ctx.buffers|
  {
    ctx.(buffers := ctx.buffers[h := remove(ctx.buffers[h], am, config)])
  }

  /** `ctx.putImageData(buffer, 0, 0)`: the canvas now holds the buffer. */
  function PutImageData(ctx: Context, h: nat): Context
    requires h < |ctx.buffers|
  {
    ctx.(canvas := ctx.buffers[h])
  }

  /** The pipeline of `process` after the image is drawn on a canvas of its own
      size: pick the placement, fill the cache, run `removeWatermark` on a
      first copy of the canvas that is never written back, then on a second
      copy that is. An image with no pixels along one side passes the cache
      block and is then rejected by the first `getImageData`. Returns the
      engine with its cache and the outcome. */
  function Process(e: EngineState, image: ImageData, remove: Remover): (res: (EngineState, Outcome))
    requires Wf(e)
    ensures var c := SelectPlacement(image.width, image.height);
      && res.0 == EnsureAlphaMap(e, c.size)
      && (res.1.IndexSizeError? <==> image.width == 0 || image.height == 0)
      && (res.1.Processed? ==> res.1.ctx.canvas == remove(image, res.0.alphaMaps[c.size], c))
  {
    var config := SelectPlacement(image.width, image.height);
    var size: nat := config.size;
    var e' := EnsureAlphaMap(e, size);
    var am := e'.alphaMaps[size];
    var ctx0 := Context(image, []);
    match GetImageData(ctx0)
    case ReadFailed => (e', IndexSizeError)
    case Read(ctx1, first) =>
      var ctx2 := RemoveWatermark(ctx1, first, am, config, remove);
      match GetImageData(ctx2)
      case ReadFailed => (e', IndexSizeError)
      case Read(ctx3, finalData) =>
        var ctx4 := RemoveWatermark(ctx3, finalData, am, config, remove);
        (e', Processed(PutImageData(ctx4, finalData)))
  }

  /** The first call's result stays in its own buffer: both buffers hold one
      application to the original pixels, and only the second reaches the canvas. */
  lemma FirstCallDiscarded(e: EngineState, image: ImageData, remove: Remover)
    requires Wf(e)
    ensures var (e', out) := Process(e, image, remove);
      var c := SelectPlacement(image.width, image.height);
      out.Processed? ==>
        && |out.ctx.buffers| == 2
        && out.ctx.buffers[0] == remove(image, e'.alphaMaps[c.size], c)
        && out.ctx.buffers[1] == out.ctx.canvas
  {
  }

  /** Processing keeps every cached entry equal to a fresh computation, so the
      outcome is the same as with a newly constructed engine. */
  lemma ProcessIndependentOfCache(e: EngineState, image: ImageData, remove: Remover)
    requires Consistent(e)
    ensures Consistent(Process(e, image, remove).0)
    ensures Process(e, image, remove).1 == Process(NewEngine(e.bg48, e.bg96), image, remove).1
  {
    var c := SelectPlacement(image.width, image.height);
    CachedAlphaMapIsFresh(e, c.size);
  }
}
