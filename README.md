# Pixel-art pipeline: a verified Dafny model

This project models the image-processing core of a small desktop pixel-art tool. The tool loads a
photo and runs it through three stages, always in this order:
1. **Pixelation**: resize to a small square, then back to the original size.
2. **Palette reduction**: adaptive quantization with Floyd–Steinberg dithering.
3. **Bit-depth reduction**: every R, G and B channel is ANDed with a mask that keeps only its top
   bits.

Each stage clamps its integer parameter into a fixed range instead of rejecting it. The window
drives the parameters through three sliders. Each slider has arrow buttons that step it by one and
a text box that sets it when the text is an in-range integer.

Bit-depth reduction is the only algorithm the repository implements itself, and it exists twice:
- `color_bit_reduce` in `New_pixelart_algorithm_revisedGUI.py` clamps the depth into [1, 8].
- `color_bit_reduce` in `pixelart_algorithm.py` uses the depth as given.

Both build the mask with a loop that ORs in `0x80`, `0x40`, … one bit per round. Then two nested
loops, rows outer and columns inner, mask each pixel of a converted copy in place.

Modules, one file each:
- `Params` (`params.dfy`): the Python clamp `max(lo, min(v, hi))` and the three parameter clamps.
- `Raster` (`raster.dfy`): RGB pixels with `bv8` channels. Images appear both as values and as
  `array2<Pixel>` buffers indexed `[x, y]`. The file also holds the in-place masking loop and the
  row-major scan order it follows.
- `BitDepth` (`bit_depth.dfy`): the mask loop, channel and pixel reduction, and the guarded
  `color_bit_reduce`.
- `PixelArtAlgorithm` (`pixelart_algorithm.dfy`): the unguarded `color_bit_reduce` and how it
  relates to the guarded one.
- `Pipeline` (`pipeline.dfy`): `pixelate`, `color_pal_reduce` and `apply_pixel_art_pipeline`. The
  imaging library's resize and quantize kernels are function parameters.
- `Sliders` (`sliders.dfy`): the slider and text-box classes, `increment_slider` and
  `update_from_text_input`.

The channel masking methods are proved against specification functions. `ColorBitReduce` returns a
fresh buffer whose image value is `BitReduceImage` of the input, and the caller's buffer is left
unchanged. This matches Pillow, where `convert("RGB")` returns a new image. The ghost out-parameter
`writes` records each cell as it is written. It equals `ScanOrder(width, height)`, which the
`ScanOrder*` lemmas show visits every cell exactly once, row after row.

At depth 3 the mask is `0xE0`. A pixel (200, 130, 64) becomes (192, 128, 64): 64 is `0x40`, and its
one set bit lies inside the mask, so the channel is kept. `BitDepth.ThreeBitExample` proves this.

## Model

| member | source | states |
|---|---|---|
| `Params.Clamp` | New_pixelart_algorithm_revisedGUI.py:32 | the result is at least `lo`. When `lo <= hi` it lies in [lo, hi]: it equals an in-range request, and the nearer bound for an out-of-range one. When `hi < lo` it is `lo`. |
| `Params.ClampIsNearest` | New_pixelart_algorithm_revisedGUI.py:52 | no value in [lo, hi] is closer to the request than the clamped value |
| `Params.ClampIdempotent` | New_pixelart_algorithm_revisedGUI.py:41 | clamping a clamped value changes nothing |
| `Params.ClampPixelSize` | New_pixelart_algorithm_revisedGUI.py:31-32 | the square side is at least 1 and at most both image sides (when neither side is 0). It is the request when that lies in [1, shorter side], 1 for a request below 1, the shorter side for a request above it, and 1 for an image with an empty side. |
| `Params.ClampPaletteColors` | New_pixelart_algorithm_revisedGUI.py:41 | the colour count lies in [2, 256]: it is the request when in range, 2 below the range and 256 above it |
| `Params.ClampBitDepth` | New_pixelart_algorithm_revisedGUI.py:52 | the depth lies in [1, 8]: it is the request when in range, 1 below the range and 8 above it |
| `Params.PixelSizeExample` | New_pixelart_algorithm_revisedGUI.py:31-32 | a 100x50 image asked for pixel size 999 goes through a 50x50 square |
| `Raster.MaskPixel` | New_pixelart_algorithm_revisedGUI.py:67-71 | every masked channel is at most the original channel and has no bit outside the mask |
| `Raster.MaskImage` | New_pixelart_algorithm_revisedGUI.py:65-71 | the masked image has the same width and height, and each of its pixels is the masked pixel at the same position |
| `Raster.MaskImageIdempotent` | New_pixelart_algorithm_revisedGUI.py:68-70 | masking an image twice with the same mask equals masking it once |
| `Raster.MaskImageFull` | New_pixelart_algorithm_revisedGUI.py:68-70 | masking with 0xFF returns the image unchanged |
| `Raster.ScanOrderAt` | New_pixelart_algorithm_revisedGUI.py:65-66 | the nested loops make w*h visits, and visit k is column k mod w of row k div w |
| `Raster.ScanOrderIndexOf` | New_pixelart_algorithm_revisedGUI.py:65-66 | cell (x, y) is visited at step y*w + x |
| `Raster.ScanOrderInBounds` | New_pixelart_algorithm_revisedGUI.py:65-66 | every visited cell lies inside the image |
| `Raster.ScanOrderVisitsEachCellOnce` | New_pixelart_algorithm_revisedGUI.py:65-66 | a cell is visited if and only if it lies in the image, and no cell is visited twice |
| `Raster.MaskPixelAt` | New_pixelart_algorithm_revisedGUI.py:67-71 | one loop step replaces `pixels[x, y]` by its masked value and leaves every other pixel unchanged |
| `Raster.MaskPixelsInPlace` | New_pixelart_algorithm_revisedGUI.py:65-71 | afterwards every pixel of the buffer is its old value masked, and the buffer's image is `MaskImage` of the old one. The writes happened in row-major scan order, and throughout the loop a pixel is masked exactly when its cell is in the record of writes. |
| `Raster.CopyImage` | New_pixelart_algorithm_revisedGUI.py:62-63 | the converted image is a fresh buffer holding the same pixels |
| `BitDepth.TopBits` | New_pixelart_algorithm_revisedGUI.py:56-60 | the n-bit mask is the complement of the low 8-n bits |
| `BitDepth.TopBitsHoldsTopPositions` | New_pixelart_algorithm_revisedGUI.py:56-60 | bit k of the n-bit mask is set exactly when k is among the n highest positions, and the mask and the low-bit mask split the byte |
| `BitDepth.ReduceChannel` | New_pixelart_algorithm_revisedGUI.py:68-70 | a reduced channel is at most its input, its low 8-n bits are zero, and the amount removed is exactly the input's low bits |
| `BitDepth.ReduceChannelIsGreatest` | New_pixelart_algorithm_revisedGUI.py:68-70 | the reduced channel is the greatest value at or below the input whose low 8-n bits are zero |
| `BitDepth.ReduceChannelFixedPoints` | New_pixelart_algorithm_revisedGUI.py:68-70 | reduction leaves a channel unchanged if and only if its low 8-n bits are already zero |
| `BitDepth.ReducePixel` | New_pixelart_algorithm_revisedGUI.py:67-71 | the three channels are reduced independently, and the result has depth n |
| `BitDepth.ReducePixelFixedPoints` | New_pixelart_algorithm_revisedGUI.py:65-71 | a pixel is unchanged by reduction if and only if it already has depth n, and reducing twice equals reducing once |
| `BitDepth.BuildMask` | pixelart_algorithm.py:31-35 | for any integer count the loop yields the top `min(max(count, 0), 8)` bits of 0xFF: 0 for a count of 0 or less, 0xFF for 8 or more |
| `BitDepth.BitReduceImage` | New_pixelart_algorithm_revisedGUI.py:50-73 | the result has the input's width and height, and each pixel is the input pixel reduced to the clamped depth |
| `BitDepth.BitReduceIdempotent` | New_pixelart_algorithm_revisedGUI.py:65-71 | running the reduction twice with the same depth gives the same image as running it once |
| `BitDepth.BitReduceFullDepthIsIdentity` | New_pixelart_algorithm_revisedGUI.py:52-60 | a depth of 8 or more leaves the image unchanged |
| `BitDepth.ThreeBitExample` | New_pixelart_algorithm_revisedGUI.py:56-70 | depth 3 gives mask 0xE0 and turns (200, 130, 64) into (192, 128, 64) |
| `BitDepth.ColorBitReduce` | New_pixelart_algorithm_revisedGUI.py:50-73 | returns a fresh buffer whose image is `BitReduceImage` of the input, having written each cell once in row-major order |
| `PixelArtAlgorithm.MaskedBits` | pixelart_algorithm.py:31-35 | the number of mask bits lies in [0, 8]: it equals the count when that is in range, 0 below the range and 8 above it |
| `PixelArtAlgorithm.UnguardedBitReduceImage` | pixelart_algorithm.py:28-48 | the result has the input's width and height, and each pixel is reduced to the raw count limited to [0, 8] |
| `PixelArtAlgorithm.SaturatedCountIsIdentity` | pixelart_algorithm.py:32-35 | with 8 or more rounds the mask is 0xFF and the image is unchanged |
| `PixelArtAlgorithm.NonPositiveCountBlacksOut` | pixelart_algorithm.py:31-35 | with 0 or fewer rounds the mask is 0 and every pixel becomes (0, 0, 0) |
| `PixelArtAlgorithm.UnguardedBitReduceIdempotent` | pixelart_algorithm.py:40-46 | running the unguarded reduction twice gives the same image as running it once |
| `PixelArtAlgorithm.AgreesWithGuardedVersion` | pixelart_algorithm.py:28-48 | for every count of 1 or more, the unguarded version gives the same image as the guarded one |
| `PixelArtAlgorithm.DiffersFromGuardedVersionBelowOneBit` | pixelart_algorithm.py:31-35 | for a count of 0 or less, the two versions agree if and only if no channel of the image is 128 or more |
| `PixelArtAlgorithm.ColorBitReduce` | pixelart_algorithm.py:28-48 | returns a fresh buffer whose image is `UnguardedBitReduceImage` of the input, having written each cell once in row-major order |
| `Pipeline.Resize` | New_pixelart_algorithm_revisedGUI.py:34-35 | a resize returns an image of exactly the requested size, whatever the kernel |
| `Pipeline.Pixelate` | New_pixelart_algorithm_revisedGUI.py:26-36 | the pixelated image has the original width and height |
| `Pipeline.PixelateIntermediateSide` | New_pixelart_algorithm_revisedGUI.py:31-34 | the intermediate image is square, with a side between 1 and the shorter side of the image |
| `Pipeline.ColorPalReduce` | New_pixelart_algorithm_revisedGUI.py:39-47 | the palette-reduced image has the input's width and height |
| `Pipeline.ApplyPixelArtPipeline` | New_pixelart_algorithm_revisedGUI.py:76-81 | the pipeline's output has the source's width and height |
| `Pipeline.PipelineOutputHasBitDepth` | New_pixelart_algorithm_revisedGUI.py:76-81 | for any kernels, every output channel has its low 8-depth bits zero, and bit-reducing the output again changes nothing |
| `Pipeline.PipelineFullDepth` | New_pixelart_algorithm_revisedGUI.py:80 | at depth 8 or more, the pipeline's output is the palette stage's output |
| `Pipeline.PipelineSeesOnlyClampedParameters` | New_pixelart_algorithm_revisedGUI.py:78-80 | any request gives the same output as the request with its three parameters clamped: out-of-range values are clamped, never rejected |
| `Sliders.Slider.constructor` | New_pixelart_algorithm_revisedGUI.py:226-229 | a slider starts with the given minimum, maximum and value |
| `Sliders.DecimalString` | New_pixelart_algorithm_revisedGUI.py:453 | `str` of an integer starts with a minus sign exactly when it is negative, followed by at least one decimal digit and no leading zero |
| `Sliders.NatStringValue` | New_pixelart_algorithm_revisedGUI.py:453 | the digits written for a natural number are decimal digits that read back as that number |
| `Sliders.DecimalStringRoundTrip` | New_pixelart_algorithm_revisedGUI.py:459 | the text written back into a box reads back as the slider value it was made from |
| `Sliders.IncrementSlider` | New_pixelart_algorithm_revisedGUI.py:442-446 | the value becomes value+direction when that lies in [minimum, maximum] and stays put otherwise; a slider within its range stays within it |
| `Sliders.UpdateFromTextInput` | New_pixelart_algorithm_revisedGUI.py:448-459 | an in-range integer becomes the slider value and the text is kept; otherwise (no integer, or out of range) the slider is unchanged and the text shows its value; the range invariant is kept when the bounds lie within the slider's own |
| `Sliders.ResubmitAfterReset` | New_pixelart_algorithm_revisedGUI.py:450-459 | after a rejected entry, submitting the reset text again leaves both the slider and the text unchanged |
| `Sliders.SliderValuesWithinClamps` | New_pixelart_algorithm_revisedGUI.py:286-289 | any bit-depth or palette slider value passes its clamp unchanged. A pixel-size slider value is reduced only by an image side shorter than it. |

## Left out

- Pillow's `resize` (LANCZOS, NEAREST) and `quantize` (ADAPTIVE palette, FLOYDSTEINBERG dither). Their kernels are library code that relies on floating-point filtering. They appear only as function parameters, which fix the size of the image each call produces.
- `Pipeline.ColorPalReduce`: does not state that the output uses at most the clamped number of colours, because that promise belongs to the library's quantizer, which the model does not contain.
- `image.convert("RGB")` and `image.load()`: images are RGB buffers from the start. The conversion is modelled as a copy into a fresh buffer.
- Integer parsing: Python's `int(text)` is a parameter of type `Option<int>`, which is None when `int` raises. `DecimalValue` reads an optional minus sign followed by one or more decimal digits, leading zeros included. The model applies it only to text written by `DecimalString`. It is not a model of `int`.
- Qt behaviour of sliders: `valueChanged` triggers a preview refresh that rewrites the text boxes. A `QSlider` also clamps any value set on it into its own range. Neither is modelled. All three call sites of `update_from_text_input` pass the slider's own bounds, so the clamp would not change a value set there.
- The preview downscale in `load_image` (float scale arithmetic and a library resize), the PNG round trip, file dialogs, saving, widget construction, fonts and animation. All of these are UI and I/O.
- The unguarded `pixelate` and `color_pal_reduce` in `pixelart_algorithm.py`. They only call the library and have no guard to verify.
- `GUI.py`, `basic_ui_main.py` and `pixelart_algorithm_revisedGUI (1).py`. These are UI variants.
- Channel values are `bv8`. Python's `bitmask` and `bitset` are unbounded integers, but `bitset` starts at 0x80 and only shifts right, so both always fit in 8 bits.
