/**
 * Per-channel bit-depth reduction, guarded version: the number of bits kept
 * per channel is clamped into [1, 8], a mask holding the top bits is built
 * one bit at a time, and every channel of every pixel is ANDed with it.
 */
module BitDepth {
  import opened Params
  import opened Raster

  /** The top n bits of a byte set, the rest clear: `(0xFF << (8 - n)) & 0xFF`. */
  function TopBits(n: nat): (m: bv8)
    requires n <= 8
    ensures m == !LowBits(n)
  {
    (0xFF as bv8) << (8 - n)
  }

  /** The low 8 - n bits of a byte set, the rest clear: `2^(8 - n) - 1`. */
  function LowBits(n: nat): (m: bv8)
    requires n <= 8
  {
    ((1 as bv16 << (8 - n)) - 1) as bv8
  }

  /** Bit k of the mask is set exactly when k is one of the n highest positions. */
  lemma TopBitsHoldsTopPositions(n: nat, k: nat)
    requires n <= 8 && k < 8
    ensures (TopBits(n) >> k) & 1 == 1 <==> 8 - n <= k
    ensures TopBits(n) | LowBits(n) == 0xFF && TopBits(n) & LowBits(n) == 0
  {
  }

  /**
   * One channel reduced to n bits: the largest value not above the input
   * whose low 8 - n bits are clear (see ReduceChannelIsGreatest).
   */
  function ReduceChannel(c: bv8, n: nat): (r: bv8)
    requires n <= 8
    ensures r <= c
    ensures r & LowBits(n) == 0
    ensures c - r == c & LowBits(n)
  {
    c & TopBits(n)
  }

  /** No value with clear low bits lies strictly between the result and the input. */
  lemma ReduceChannelIsGreatest(c: bv8, d: bv8, n: nat)
    requires n <= 8 && d & LowBits(n) == 0 && d <= c
    ensures d <= ReduceChannel(c, n)
  {
  }

  /** A pixel whose channels all have their low 8 - n bits clear. */
  predicate HasDepth(p: Pixel, n: nat)
    requires n <= 8
  {
    p.r & LowBits(n) == 0 && p.g & LowBits(n) == 0 && p.b & LowBits(n) == 0
  }

  /** A pixel reduced to n bits per channel. */
  function ReducePixel(p: Pixel, n: nat): (q: Pixel)
    requires n <= 8
    ensures q == Pixel(ReduceChannel(p.r, n), ReduceChannel(p.g, n), ReduceChannel(p.b, n))
    ensures HasDepth(q, n)
  {
    MaskPixel(p, TopBits(n))
  }

  lemma ReduceChannelFixedPoints(c: bv8, n: nat)
    requires n <= 8
    ensures ReduceChannel(c, n) == c <==> c & LowBits(n) == 0
  {
  }

  /** The pixels that reduction leaves alone are exactly those already of depth n. */
  lemma ReducePixelFixedPoints(p: Pixel, n: nat)
    requires n <= 8
    ensures ReducePixel(p, n) == p <==> HasDepth(p, n)
    ensures ReducePixel(ReducePixel(p, n), n) == ReducePixel(p, n)
  {
    ReduceChannelFixedPoints(p.r, n);
    ReduceChannelFixedPoints(p.g, n);
    ReduceChannelFixedPoints(p.b, n);
    var q := ReducePixel(p, n);
    ReduceChannelFixedPoints(q.r, n);
    ReduceChannelFixedPoints(q.g, n);
    ReduceChannelFixedPoints(q.b, n);
  }

  /**
   * The mask loop of `color_bit_reduce`: `bitmask |= bitset; bitset >>= 1`
   * repeated `targetBits` times, `bitset` starting at 0x80. Once eight bits
   * are set `bitset` is 0 and further rounds change nothing; a non-positive
   * count runs no round at all.
   */
  method BuildMask(targetBits: int) returns (bitmask: bv8)
    ensures bitmask == TopBits(Clamp(targetBits, 0, 8))
  {
    bitmask := 0;
    var bitset: bv8 := 0x80;
    var i := 0;
    while i < targetBits
      invariant 0 <= i && (i == 0 || i <= targetBits)
      invariant bitmask == TopBits(Min(i, 8))
      invariant bitset == if i < 8 then 0x80 >> i else 0
    {
      bitmask := bitmask | bitset;
      bitset := bitset >> 1;
      i := i + 1;
    }
    assert Min(i, 8) == Clamp(targetBits, 0, 8);
  }

  /** What `color_bit_reduce` makes of an image: every pixel reduced to the clamped depth. */
  function BitReduceImage(img: Image, targetBits: int): (r: Image)
    requires img.Valid()
    ensures r.Valid() && r.width == img.width && r.height == img.height
    ensures forall x, y :: 0 <= x < r.width && 0 <= y < r.height ==>
      r.At(x, y) == ReducePixel(img.At(x, y), ClampBitDepth(targetBits))
  {
    MaskImage(img, TopBits(ClampBitDepth(targetBits)))
  }

  /** Reducing twice with the same depth is reducing once. */
  lemma BitReduceIdempotent(img: Image, targetBits: int)
    requires img.Valid()
    ensures BitReduceImage(BitReduceImage(img, targetBits), targetBits) == BitReduceImage(img, targetBits)
  {
    MaskImageIdempotent(img, TopBits(ClampBitDepth(targetBits)));
  }

  /** Depth 8, or any larger request, leaves the image unchanged. */
  lemma BitReduceFullDepthIsIdentity(img: Image, targetBits: int)
    requires img.Valid() && 8 <= targetBits
    ensures BitReduceImage(img, targetBits) == img
  {
    MaskImageFull(img);
  }

  /**
   * Three bits: the mask is 0xE0 and (200, 130, 64) becomes (192, 128, 64);
   * 64 is 0x40, whose one set bit lies inside the mask, so it is kept.
   */
  lemma ThreeBitExample()
    ensures TopBits(ClampBitDepth(3)) == 0xE0
    ensures ReducePixel(Pixel(200, 130, 64), ClampBitDepth(3)) == Pixel(192, 128, 64)
  {
    assert ClampBitDepth(3) == 3;
    assert TopBits(3) == 0xE0;
    assert ReduceChannel(200, 3) == 192 && ReduceChannel(130, 3) == 128 && ReduceChannel(64, 3) == 64;
  }

  /**
   * `color_bit_reduce` (guarded): clamp the depth, build the mask, convert
   * (copy) the image and mask every pixel of the copy in place, row by row.
   */
  method ColorBitReduce(image: array2<Pixel>, targetBits: int) returns (result: array2<Pixel>, ghost writes: seq<Cell>)
    ensures fresh(result)
    ensures Grid(result) == BitReduceImage(Grid(image), targetBits)
    ensures writes == ScanOrder(image.Length0, image.Length1)
  {
    var bits := ClampBitDepth(targetBits);
    var bitmask := BuildMask(bits);
    result := CopyImage(image);
    writes := MaskPixelsInPlace(result, bitmask);
  }
}
