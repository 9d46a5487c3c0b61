/**
 The pixel buffers the engine works on: a browser `ImageData`, that is a
 width, a height and a row-major RGBA byte array, four bytes per pixel.
 */
module Image {

  /** One channel sample of a `Uint8ClampedArray`. */
  type Byte = x: int | 0 <= x < 256

  /** Byte offsets of the channels inside one RGBA pixel. */
  const Red: nat := 0
  const Green: nat := 1
  const Blue: nat := 2
  const AlphaChannel: nat := 3

  datatype ImageData = ImageData(width: nat, height: nat, data: seq<Byte>) {

    /** The browser keeps `data.length == width * height * 4` for every ImageData. */
    ghost predicate Valid() {
      |data| == width * height * 4
    }

    /** Number of pixels. */
    function Pixels(): nat {
      width * height
    }

    /** Channel `k` of pixel `p` (pixel `p` starts at byte `4 * p`). */
    function Channel(p: nat, k: nat): Byte
      requires Valid() && p < Pixels() && k < 4
    {
      data[4 * p + k]
    }

    /** Every fully transparent pixel is transparent black. A canvas that
        stores premultiplied colour loses the colour of such pixels, so every
        buffer read back with `getImageData` has this shape. */
    ghost predicate TransparentIsBlack()
      requires Valid()
    {
      forall p :: 0 <= p < Pixels() && Channel(p, AlphaChannel) == 0 ==>
        Channel(p, Red) == 0 && Channel(p, Green) == 0 && Channel(p, Blue) == 0
    }
  }

  /** Byte `j` of the buffer `getImageData(0, 0, size, size)` returns after
      `drawImage(bg, 0, 0)` onto a fresh, fully transparent size x size canvas:
      bytes of visible pixels covered by `bg` are copied, fully transparent
      pixels and the uncovered rest read back as transparent black. */
  function CaptureByte(bg: ImageData, size: nat, j: nat): Byte
    requires bg.Valid() && 0 < size
  {
    var p := j / 4;
    var x := p % size;
    var y := p / size;
    if x < bg.width && y < bg.height then
      PixelIndexBound(x, y, bg.width, bg.height);
      var q := y * bg.width + x;
      if bg.Channel(q, AlphaChannel) == 0 then 0 else bg.data[4 * q + j % 4]
    else 0
  }

  /** The bytes of the capture, in order. */
  function CaptureData(bg: ImageData, size: nat): seq<Byte>
    requires bg.Valid() && 0 < size
  {
    seq(size * size * 4, j requires 0 <= j => CaptureByte(bg, size, j))
  }

  /** The size x size capture of a reference image drawn at the origin. */
  function Capture(bg: ImageData, size: nat): (cap: ImageData)
    requires bg.Valid()
    ensures cap.Valid() && cap.width == size && cap.height == size
    ensures cap.TransparentIsBlack()
    ensures bg.width == size && bg.height == size ==>
      forall p, k :: 0 <= p < size * size && 0 <= k < 4 ==>
        cap.Channel(p, k) == if bg.Channel(p, AlphaChannel) == 0 then 0 else bg.Channel(p, k)
    ensures bg.width == size && bg.height == size && bg.TransparentIsBlack() ==> cap == bg
  {
    if size == 0 then ImageData(0, 0, [])
    else
      CaptureTransparentIsBlack(bg, size);
      if bg.width == size && bg.height == size then
        CaptureExactSize(bg, size);
        CaptureIdentity(bg, size);
        ImageData(size, size, CaptureData(bg, size))
      else ImageData(size, size, CaptureData(bg, size))
  }

  /** A captured pixel whose alpha reads back as 0 is transparent black. */
  lemma CaptureTransparentIsBlack(bg: ImageData, size: nat)
    requires bg.Valid() && 0 < size
    ensures ImageData(size, size, CaptureData(bg, size)).TransparentIsBlack()
  {
  }

  /** Drawing an image of exactly the canvas size at the origin and reading it
      back copies every visible pixel byte for byte and blanks transparent ones. */
  lemma CaptureExactSize(bg: ImageData, size: nat)
    requires bg.Valid() && 0 < size && bg.width == size && bg.height == size
    ensures var cap := ImageData(size, size, CaptureData(bg, size));
      forall p, k :: 0 <= p < size * size && 0 <= k < 4 ==>
        cap.Channel(p, k) == if bg.Channel(p, AlphaChannel) == 0 then 0 else bg.Channel(p, k)
  {
    var cap := ImageData(size, size, CaptureData(bg, size));
    forall p, k | 0 <= p < size * size && 0 <= k < 4
      ensures cap.Channel(p, k) == if bg.Channel(p, AlphaChannel) == 0 then 0 else bg.Channel(p, k)
    {
      var j := 4 * p + k;
      assert j / 4 == p && j % 4 == k;
      assert p == (p / size) * size + p % size;
      DivBelow(p, size, size);
    }
  }

  /** An exact-size reference whose transparent pixels are already black is
      captured unchanged. */
  lemma CaptureIdentity(bg: ImageData, size: nat)
    requires bg.Valid() && 0 < size && bg.width == size && bg.height == size
    ensures bg.TransparentIsBlack() ==> CaptureData(bg, size) == bg.data
  {
    if !bg.TransparentIsBlack() {
      return;
    }
    var cap := ImageData(size, size, CaptureData(bg, size));
    CaptureExactSize(bg, size);
    forall j | 0 <= j < |bg.data|
      ensures cap.data[j] == bg.data[j]
    {
      var p := j / 4;
      assert j == 4 * p + j % 4;
      assert p < size * size;
      assert cap.Channel(p, j % 4) == bg.Channel(p, j % 4);
    }
  }

  /** Row-major pixel indices of an in-range (x, y) stay below the pixel count. */
  lemma PixelIndexBound(x: nat, y: nat, w: nat, h: nat)
    requires x < w && y < h
    ensures y * w + x < w * h
  {
    MulLe(y + 1, h, w);
    assert y * w + x < (y + 1) * w;
  }

  lemma MulLe(a: nat, b: nat, c: nat)
    requires a <= b
    ensures a * c <= b * c
  {
  }

  /** A row index `p / n` of an index below `m * n` is below `m`. */
  lemma DivBelow(p: nat, n: nat, m: nat)
    requires 0 < n && p < m * n
    ensures p / n < m
  {
    var q := p / n;
    assert q * n <= p;
    if m <= q {
      MulLe(m, q, n);
    }
  }
}
