/**
 * Bit-depth reduction, unguarded version: `target_bits` is used as given.
 * The same mask loop runs `target_bits` times, so a count of 8 or more
 * saturates at 0xFF and a count of 0 or less leaves the mask empty.
 */
module PixelArtAlgorithm {
  import opened Params
  import opened Raster
  import BitDepth

  /** How many top bits the mask loop sets for a raw count: `target_bits` limited to [0, 8]. */
  function MaskedBits(targetBits: int): (n: nat)
    ensures n <= 8
    ensures 0 <= targetBits <= 8 ==> n == targetBits
    ensures targetBits < 0 ==> n == 0
    ensures 8 < targetBits ==> n == 8
  {
    Clamp(targetBits, 0, 8)
  }

  /** What the unguarded `color_bit_reduce` makes of an image. */
  function UnguardedBitReduceImage(img: Image, targetBits: int): (r: Image)
    requires img.Valid()
    ensures r.Valid() && r.width == img.width && r.height == img.height
    ensures forall x, y :: 0 <= x < r.width && 0 <= y < r.height ==>
      r.At(x, y) == BitDepth.ReducePixel(img.At(x, y), MaskedBits(targetBits))
  {
    MaskImage(img, BitDepth.TopBits(MaskedBits(targetBits)))
  }

  /** Eight or more rounds: `bitset` has run out, the mask is 0xFF and the image comes back unchanged. */
  lemma SaturatedCountIsIdentity(img: Image, targetBits: int)
    requires img.Valid() && 8 <= targetBits
    ensures BitDepth.TopBits(MaskedBits(targetBits)) == 0xFF
    ensures UnguardedBitReduceImage(img, targetBits) == img
  {
    MaskImageFull(img);
  }

  /** No round at all: the mask stays 0 and every pixel becomes black. */
  lemma NonPositiveCountBlacksOut(img: Image, targetBits: int, x: nat, y: nat)
    requires img.Valid() && targetBits <= 0 && x < img.width && y < img.height
    ensures BitDepth.TopBits(MaskedBits(targetBits)) == 0
    ensures UnguardedBitReduceImage(img, targetBits).At(x, y) == Pixel(0, 0, 0)
  {
  }

  /** Reducing twice with the same count is reducing once. */
  lemma UnguardedBitReduceIdempotent(img: Image, targetBits: int)
    requires img.Valid()
    ensures UnguardedBitReduceImage(UnguardedBitReduceImage(img, targetBits), targetBits)
         == UnguardedBitReduceImage(img, targetBits)
  {
    MaskImageIdempotent(img, BitDepth.TopBits(MaskedBits(targetBits)));
  }

  /** From 1 bit upwards the two versions agree. */
  lemma AgreesWithGuardedVersion(img: Image, targetBits: int)
    requires img.Valid() && 1 <= targetBits
    ensures UnguardedBitReduceImage(img, targetBits) == BitDepth.BitReduceImage(img, targetBits)
  {
    assert MaskedBits(targetBits) == ClampBitDepth(targetBits);
  }

  /**
   * Below 1 bit they agree exactly on images without any channel of 128 or
   * more: the guarded version keeps the top bit, the unguarded one keeps nothing.
   */
  lemma DiffersFromGuardedVersionBelowOneBit(img: Image, targetBits: int)
    requires img.Valid() && targetBits <= 0
    ensures UnguardedBitReduceImage(img, targetBits) == BitDepth.BitReduceImage(img, targetBits) <==>
      forall x, y :: 0 <= x < img.width && 0 <= y < img.height ==>
        img.At(x, y).r < 0x80 && img.At(x, y).g < 0x80 && img.At(x, y).b < 0x80
  {
    var unguarded := UnguardedBitReduceImage(img, targetBits);
    var guarded := BitDepth.BitReduceImage(img, targetBits);
    assert BitDepth.TopBits(ClampBitDepth(targetBits)) == 0x80;
    if forall x, y :: 0 <= x < img.width && 0 <= y < img.height ==>
        img.At(x, y).r < 0x80 && img.At(x, y).g < 0x80 && img.At(x, y).b < 0x80
    {
      ImageExt(unguarded, guarded);
    }
    if unguarded == guarded {
      forall x, y | 0 <= x < img.width && 0 <= y < img.height
        ensures img.At(x, y).r < 0x80 && img.At(x, y).g < 0x80 && img.At(x, y).b < 0x80
      {
        assert unguarded.At(x, y) == guarded.At(x, y);
      }
    }
  }

  /**
   * `color_bit_reduce` (unguarded): build the mask from the raw count,
   * convert (copy) the image and mask every pixel of the copy in place.
   */
  method ColorBitReduce(image: array2<Pixel>, targetBits: int) returns (result: array2<Pixel>, ghost writes: seq<Cell>)
    ensures fresh(result)
    ensures Grid(result) == UnguardedBitReduceImage(Grid(image), targetBits)
    ensures writes == ScanOrder(image.Length0, image.Length1)
  {
    var bitmask := BitDepth.BuildMask(targetBits);
    result := CopyImage(image);
    writes := MaskPixelsInPlace(result, bitmask);
  }
}
