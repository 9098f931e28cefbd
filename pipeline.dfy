/**
 * The pixel-art pipeline: pixelation by two resizes, palette reduction and
 * bit-depth reduction, always in that order. The imaging library's resize
 * and quantize kernels are parameters: all the model fixes about them is
 * the size of the image each call asks for.
 */
module Pipeline {
  import opened Params
  import opened Raster
  import BitDepth

  /** A resampling kernel: the pixel at (x, y) when `source` is resized to w x h. */
  type Kernel = (Image, nat, nat, nat, nat) -> Pixel

  /** An adaptive, dithering quantizer: the RGB pixel at (x, y) of `source` reduced to `colors` colours. */
  type Quantizer = (Image, nat, nat, nat) -> Pixel

  /** The library's `resize((w, h))`: a w x h image, each pixel chosen by the kernel. */
  function Resize(source: Image, w: nat, h: nat, kernel: Kernel): (r: Image)
    ensures r.Valid() && r.width == w && r.height == h
    ensures forall x, y :: 0 <= x < w && 0 <= y < h ==> r.At(x, y) == kernel(source, w, h, x, y)
  {
    Image(w, h, seq(h, y requires 0 <= y < h => seq(w, x requires 0 <= x < w => kernel(source, w, h, x, y))))
  }

  /**
   * `pixelate`: resize to a square whose side is the clamped `targetSize`
   * (smooth kernel), then back to the original size (nearest-neighbour kernel).
   */
  function Pixelate(image: Image, targetSize: int, smooth: Kernel, nearest: Kernel): (r: Image)
    ensures r.Valid() && r.width == image.width && r.height == image.height
  {
    var side := ClampPixelSize(targetSize, image.width, image.height);
    var small := Resize(image, side, side, smooth);
    Resize(small, image.width, image.height, nearest)
  }

  /** The square intermediate of `pixelate` has a side in [1, min(width, height)] when the image is not empty. */
  lemma PixelateIntermediateSide(image: Image, targetSize: int, smooth: Kernel)
    requires 1 <= image.width && 1 <= image.height
    ensures var side := ClampPixelSize(targetSize, image.width, image.height);
      var small := Resize(image, side, side, smooth);
      small.width == small.height && 1 <= small.width <= Min(image.width, image.height)
  {
  }

  /** `color_pal_reduce`: quantize to the clamped number of colours and expand back to RGB. */
  function ColorPalReduce(image: Image, targetColors: int, quantize: Quantizer): (r: Image)
    ensures r.Valid() && r.width == image.width && r.height == image.height
  {
    var colors := ClampPaletteColors(targetColors);
    Image(image.width, image.height,
      seq(image.height, y requires 0 <= y < image.height =>
        seq(image.width, x requires 0 <= x < image.width => quantize(image, colors, x, y))))
  }

  /** `apply_pixel_art_pipeline`: pixelate, then reduce the palette, then reduce the bit depth. */
  function ApplyPixelArtPipeline(src: Image, pixelSize: int, paletteColors: int, bitDepth: int,
                                 smooth: Kernel, nearest: Kernel, quantize: Quantizer): (r: Image)
    ensures r.Valid() && r.width == src.width && r.height == src.height
  {
    var pixelated := Pixelate(src, pixelSize, smooth, nearest);
    var quantized := ColorPalReduce(pixelated, paletteColors, quantize);
    BitDepth.BitReduceImage(quantized, bitDepth)
  }

  /**
   * Bit reduction runs last, so whatever the kernels produce, every output
   * channel has its low 8 - depth bits clear and reducing the output again
   * changes nothing.
   */
  lemma PipelineOutputHasBitDepth(src: Image, pixelSize: int, paletteColors: int, bitDepth: int,
                                  smooth: Kernel, nearest: Kernel, quantize: Quantizer)
    ensures var r := ApplyPixelArtPipeline(src, pixelSize, paletteColors, bitDepth, smooth, nearest, quantize);
      && (forall x, y :: 0 <= x < r.width && 0 <= y < r.height ==>
            BitDepth.HasDepth(r.At(x, y), ClampBitDepth(bitDepth)))
      && BitDepth.BitReduceImage(r, bitDepth) == r
  {
    var img := ColorPalReduce(Pixelate(src, pixelSize, smooth, nearest), paletteColors, quantize);
    BitDepth.BitReduceIdempotent(img, bitDepth);
  }

  /** At depth 8 or more the last stage is the identity: the output is the palette stage's output. */
  lemma PipelineFullDepth(src: Image, pixelSize: int, paletteColors: int, bitDepth: int,
                          smooth: Kernel, nearest: Kernel, quantize: Quantizer)
    requires 8 <= bitDepth
    ensures ApplyPixelArtPipeline(src, pixelSize, paletteColors, bitDepth, smooth, nearest, quantize)
         == ColorPalReduce(Pixelate(src, pixelSize, smooth, nearest), paletteColors, quantize)
  {
    var img := ColorPalReduce(Pixelate(src, pixelSize, smooth, nearest), paletteColors, quantize);
    BitDepth.BitReduceFullDepthIsIdentity(img, bitDepth);
  }

  /**
   * Clamp, never reject: asking the pipeline for out-of-range parameters
   * gives exactly what asking for their clamped values gives.
   */
  lemma PipelineSeesOnlyClampedParameters(src: Image, pixelSize: int, paletteColors: int, bitDepth: int,
                                          smooth: Kernel, nearest: Kernel, quantize: Quantizer)
    ensures ApplyPixelArtPipeline(src, pixelSize, paletteColors, bitDepth, smooth, nearest, quantize)
         == ApplyPixelArtPipeline(src, ClampPixelSize(pixelSize, src.width, src.height),
              ClampPaletteColors(paletteColors), ClampBitDepth(bitDepth), smooth, nearest, quantize)
  {
    ClampIdempotent(pixelSize, 1, Min(src.width, src.height));
    ClampIdempotent(paletteColors, 2, 256);
    ClampIdempotent(bitDepth, 1, 8);
  }
}
