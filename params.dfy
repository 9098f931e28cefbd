/**
 * Parameter clamping of the pixel-art pipeline. Every stage silently clamps
 * its integer parameter into a documented range instead of rejecting it;
 * the clamp is Python's `max(lo, min(v, hi))`.
 */
module Params {

  /** Python's `max(lo, min(v, hi))`. When `hi < lo` the outer `max` wins. */
  function Clamp(v: int, lo: int, hi: int): (r: int)
    ensures r >= lo
    ensures lo <= hi ==> r <= hi
    ensures lo <= v <= hi ==> r == v
    ensures v < lo ==> r == lo
    ensures hi < v && lo <= hi ==> r == hi
    ensures hi < lo ==> r == lo
  {
    var m := if v < hi then v else hi;
    if lo < m then m else lo
  }

  function Distance(a: int, b: int): nat
  {
    if a < b then b - a else a - b
  }

  /** The clamped value is the in-range value nearest to the request. */
  lemma ClampIsNearest(v: int, lo: int, hi: int, u: int)
    requires lo <= u <= hi
    ensures Distance(Clamp(v, lo, hi), v) <= Distance(u, v)
  {
  }

  /** Clamping an already clamped value changes nothing. */
  lemma ClampIdempotent(v: int, lo: int, hi: int)
    ensures Clamp(Clamp(v, lo, hi), lo, hi) == Clamp(v, lo, hi)
  {
  }

  function Min(a: int, b: int): int
  {
    if a < b then a else b
  }

  /**
   * `pixelate`: the square side of the intermediate image, clamped into
   * [1, min(width, height)]. For an image with an empty side the result is 1.
   */
  function ClampPixelSize(targetSize: int, width: nat, height: nat): (r: int)
    ensures 1 <= r
    ensures 1 <= width && 1 <= height ==> r <= width && r <= height
    ensures 1 <= targetSize <= Min(width, height) ==> r == targetSize
    ensures targetSize < 1 ==> r == 1
    ensures 1 <= Min(width, height) < targetSize ==> r == Min(width, height)
    ensures Min(width, height) == 0 ==> r == 1
  {
    Clamp(targetSize, 1, Min(width, height))
  }

  /** `color_pal_reduce`: the number of palette colours, clamped into [2, 256]. */
  function ClampPaletteColors(targetColors: int): (r: int)
    ensures 2 <= r <= 256
    ensures 2 <= targetColors <= 256 ==> r == targetColors
    ensures targetColors < 2 ==> r == 2
    ensures 256 < targetColors ==> r == 256
  {
    Clamp(targetColors, 2, 256)
  }

  /** `color_bit_reduce` (guarded version): bits per channel, clamped into [1, 8]. */
  function ClampBitDepth(targetBits: int): (r: int)
    ensures 1 <= r <= 8
    ensures 1 <= targetBits <= 8 ==> r == targetBits
    ensures targetBits < 1 ==> r == 1
    ensures 8 < targetBits ==> r == 8
  {
    Clamp(targetBits, 1, 8)
  }

  /** A 100x50 image asked for pixel size 999 is resampled through a 50x50 square. */
  lemma PixelSizeExample()
    ensures ClampPixelSize(999, 100, 50) == 50
  {
  }
}
