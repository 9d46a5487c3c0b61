/**
 `calculateAlphaMap`: the per-pixel opacity of the watermark, estimated from a
 capture of the watermark alone as the brightest colour channel over 255.
 Entries are exact reals; the single-precision rounding of the `Float32Array`
 the code fills is not modelled.
 */
module AlphaMap {
  import opened Image

  /** `Math.max` of three channel values. */
  function Max3(a: int, b: int, c: int): (m: int)
    ensures m >= a && m >= b && m >= c
    ensures m == a || m == b || m == c
  {
    if a >= b && a >= c then a else if b >= c then b else c
  }

  /** Opacity of pixel `p`: its brightest of red, green and blue over 255. */
  function PixelAlpha(img: ImageData, p: nat): (a: real)
    requires img.Valid() && p < img.Pixels()
    ensures 0.0 <= a <= 1.0
    ensures a == 1.0 <==> (img.Channel(p, Red) == 255 || img.Channel(p, Green) == 255 || img.Channel(p, Blue) == 255)
    ensures a == 0.0 <==> (img.Channel(p, Red) == 0 && img.Channel(p, Green) == 0 && img.Channel(p, Blue) == 0)
  {
    Max3(img.Channel(p, Red), img.Channel(p, Green), img.Channel(p, Blue)) as real / 255.0
  }

  /** The alpha map of a capture: one opacity per pixel, in pixel order. */
  function AlphaMapOf(img: ImageData): (am: seq<real>)
    requires img.Valid()
    ensures |am| == img.width * img.height
    ensures forall i :: 0 <= i < |am| ==> 0.0 <= am[i] <= 1.0
  {
    seq(img.Pixels(), i requires 0 <= i < img.Pixels() => PixelAlpha(img, i))
  }

  /** The loop of `calculateAlphaMap`: a zero-filled array of one entry per
      pixel, whose entry `i` is set from bytes `4i`, `4i+1` and `4i+2`. */
  method CalculateAlphaMap(img: ImageData) returns (am: seq<real>)
    requires img.Valid()
    ensures |am| == img.width * img.height
    ensures forall i :: 0 <= i < |am| ==>
      am[i] == Max3(img.data[4 * i], img.data[4 * i + 1], img.data[4 * i + 2]) as real / 255.0
    ensures am == AlphaMapOf(img)
  {
    am := seq(img.width * img.height, _ => 0.0);
    var i := 0;
    while i < |am|
      invariant 0 <= i <= |am| == img.width * img.height
      invariant forall j :: 0 <= j < i ==> am[j] == PixelAlpha(img, j)
    {
      var idx := i * 4;
      am := am[i := Max3(img.data[idx], img.data[idx + 1], img.data[idx + 2]) as real / 255.0];
      i := i + 1;
    }
  }

  /** Two captures that agree on every red, green and blue byte give the same
      alpha map: the alpha byte `4i+3` is never read. */
  lemma AlphaByteIgnored(img: ImageData, img': ImageData)
    requires img.Valid() && img'.Valid()
    requires img.width == img'.width && img.height == img'.height
    requires forall p, k :: 0 <= p < img.Pixels() && 0 <= k < 3 ==> img.Channel(p, k) == img'.Channel(p, k)
    ensures AlphaMapOf(img) == AlphaMapOf(img')
  {
  }

  /** Overwriting the alpha byte of any one pixel leaves the whole alpha map unchanged. */
  lemma AlphaByteUpdate(img: ImageData, p: nat, v: Byte)
    requires img.Valid() && p < img.Pixels()
    ensures var img' := img.(data := img.data[4 * p + AlphaChannel := v]);
      img'.Valid() && AlphaMapOf(img') == AlphaMapOf(img)
  {
    var img' := img.(data := img.data[4 * p + AlphaChannel := v]);
    forall q, k | 0 <= q < img.Pixels() && 0 <= k < 3
      ensures img.Channel(q, k) == img'.Channel(q, k)
    {
      assert 4 * q + k != 4 * p + AlphaChannel;
    }
    AlphaByteIgnored(img, img');
  }

  /** Raising one colour channel of pixel `p` never lowers the opacity of `p`
      and leaves every other entry unchanged. */
  lemma AlphaMonotone(img: ImageData, p: nat, k: nat, v: Byte)
    requires img.Valid() && p < img.Pixels() && k < 3
    requires img.Channel(p, k) <= v
    ensures var img' := img.(data := img.data[4 * p + k := v]);
      && img'.Valid()
      && AlphaMapOf(img)[p] <= AlphaMapOf(img')[p]
      && forall q :: 0 <= q < img.Pixels() && q != p ==> AlphaMapOf(img')[q] == AlphaMapOf(img)[q]
  {
  }
}
