/**
 * RGB raster images: pixels with 8-bit channels, images as values (for the
 * pipeline) and as two-dimensional pixel buffers indexed `[x, y]` (for the
 * in-place channel masking), and the row-by-row scan order in which the
 * masking loop visits the buffer.
 */
module Raster {

  datatype Pixel = Pixel(r: bv8, g: bv8, b: bv8)

  /** An image value: `height` rows of `width` pixels each. */
  datatype Image = Image(width: nat, height: nat, rows: seq<seq<Pixel>>)
  {
    predicate Valid()
    {
      |rows| == height && forall y :: 0 <= y < height ==> |rows[y]| == width
    }

    function At(x: nat, y: nat): Pixel
      requires Valid() && x < width && y < height
    {
      rows[y][x]
    }
  }

  /** Two images with the same size and the same pixel at every position are equal. */
  lemma {:induction false} ImageExt(a: Image, b: Image)
    requires a.Valid() && b.Valid() && a.width == b.width && a.height == b.height
    requires forall x, y :: 0 <= x < a.width && 0 <= y < a.height ==> a.At(x, y) == b.At(x, y)
    ensures a == b
  {
    forall y | 0 <= y < a.height
      ensures a.rows[y] == b.rows[y]
    {
      assert forall x :: 0 <= x < a.width ==> a.rows[y][x] == a.At(x, y) == b.At(x, y) == b.rows[y][x];
    }
  }

  /** The image value held by a pixel buffer, `a[x, y]` being column x of row y. */
  function Grid(a: array2<Pixel>): (img: Image)
    reads a
    ensures img.Valid() && img.width == a.Length0 && img.height == a.Length1
    ensures forall x, y :: 0 <= x < a.Length0 && 0 <= y < a.Length1 ==> img.At(x, y) == a[x, y]
  {
    Image(a.Length0, a.Length1,
      seq(a.Length1, y requires 0 <= y < a.Length1 reads a =>
        seq(a.Length0, x requires 0 <= x < a.Length0 reads a => a[x, y])))
  }

  /** One pixel with every channel ANDed with `mask`. */
  function MaskPixel(p: Pixel, mask: bv8): (q: Pixel)
    ensures q.r <= p.r && q.g <= p.g && q.b <= p.b
    ensures q.r & !mask == 0 && q.g & !mask == 0 && q.b & !mask == 0
  {
    Pixel(p.r & mask, p.g & mask, p.b & mask)
  }

  /** The image with `MaskPixel` applied at every position. */
  function MaskImage(img: Image, mask: bv8): (r: Image)
    requires img.Valid()
    ensures r.Valid() && r.width == img.width && r.height == img.height
    ensures forall x, y :: 0 <= x < r.width && 0 <= y < r.height ==>
      r.At(x, y) == MaskPixel(img.At(x, y), mask)
  {
    Image(img.width, img.height,
      seq(img.height, y requires 0 <= y < img.height =>
        seq(img.width, x requires 0 <= x < img.width => MaskPixel(img.rows[y][x], mask))))
  }

  /** Masking twice with the same mask is masking once. */
  lemma MaskImageIdempotent(img: Image, mask: bv8)
    requires img.Valid()
    ensures MaskImage(MaskImage(img, mask), mask) == MaskImage(img, mask)
  {
    var once := MaskImage(img, mask);
    ImageExt(MaskImage(once, mask), once);
  }

  /** Masking with 0xFF gives back the image. */
  lemma MaskImageFull(img: Image)
    requires img.Valid()
    ensures MaskImage(img, 0xFF) == img
  {
    ImageExt(MaskImage(img, 0xFF), img);
  }

  datatype Cell = Cell(x: nat, y: nat)

  /** Row y's cells from left to right, up to column n. */
  function RowCells(n: nat, y: nat): seq<Cell>
  {
    seq(n, i requires 0 <= i < n => Cell(i, y))
  }

  /** The cells of the first h rows of a width-w image, row after row, left to right in each. */
  function ScanOrder(w: nat, h: nat): seq<Cell>
  {
    if h == 0 then [] else ScanOrder(w, h - 1) + RowCells(w, h - 1)
  }

  lemma DivModUnique(i: int, w: int, q: int, r: int)
    requires 0 <= r < w && i == q * w + r
    ensures i / w == q && i % w == r
  {
    var d := q - i / w;
    assert i == (i / w) * w + i % w;
    assert d * w == i % w - r;
    assert d >= 1 ==> d * w >= w;
    assert d <= -1 ==> d * w <= -w;
  }

  /** The k-th cell of the scan is column k mod w of row k div w. */
  lemma {:induction false} ScanOrderAt(w: nat, h: nat)
    ensures |ScanOrder(w, h)| == w * h
    ensures forall k :: 0 <= k < w * h ==> ScanOrder(w, h)[k] == Cell(k % w, k / w)
  {
    if h > 0 {
      ScanOrderAt(w, h - 1);
      var s := ScanOrder(w, h);
      var base := w * (h - 1);
      assert w * h == base + w;
      forall k | 0 <= k < w * h
        ensures s[k] == Cell(k % w, k / w)
      {
        if k >= base {
          DivModUnique(k, w, h - 1, k - base);
        }
      }
    }
  }

  /** Cell (x, y) is the (y * w + x)-th cell of the scan. */
  lemma ScanOrderIndexOf(w: nat, h: nat, x: nat, y: nat)
    requires x < w && y < h
    ensures y * w + x < |ScanOrder(w, h)| && ScanOrder(w, h)[y * w + x] == Cell(x, y)
  {
    ScanOrderAt(w, h);
    assert y * w + x < (y + 1) * w <= h * w;
    DivModUnique(y * w + x, w, y, x);
  }

  /** The scan stays inside the image. */
  lemma {:induction false} ScanOrderInBounds(w: nat, h: nat)
    ensures forall c :: c in ScanOrder(w, h) ==> c.x < w && c.y < h
  {
    if h > 0 {
      ScanOrderInBounds(w, h - 1);
    }
  }

  /** The scan visits every cell of the image exactly once. */
  lemma ScanOrderVisitsEachCellOnce(w: nat, h: nat)
    ensures forall c: Cell :: c in ScanOrder(w, h) <==> c.x < w && c.y < h
    ensures forall i, j :: 0 <= i < j < |ScanOrder(w, h)| ==> ScanOrder(w, h)[i] != ScanOrder(w, h)[j]
  {
    var s := ScanOrder(w, h);
    ScanOrderAt(w, h);
    forall c: Cell | c.x < w && c.y < h
      ensures c in s
    {
      ScanOrderIndexOf(w, h, c.x, c.y);
    }
    ScanOrderInBounds(w, h);
    forall i, j | 0 <= i < j < |s|
      ensures s[i] != s[j]
    {
      assert i == (i / w) * w + i % w;
      assert j == (j / w) * w + j % w;
    }
  }

  /**
   * One step of the masking loop: read `pixels[x, y]`, AND its three
   * channels with the mask and write it back; no other pixel changes.
   */
  method MaskPixelAt(pixels: array2<Pixel>, x: nat, y: nat, mask: bv8)
    requires x < pixels.Length0 && y < pixels.Length1
    modifies pixels
    ensures pixels[x, y] == MaskPixel(old(pixels[x, y]), mask)
    ensures forall i, j :: 0 <= i < pixels.Length0 && 0 <= j < pixels.Length1 && (i != x || j != y) ==>
      pixels[i, j] == old(pixels[i, j])
  {
    var p := pixels[x, y];
    var r, g, b := p.r, p.g, p.b;
    r := r & mask;
    g := g & mask;
    b := b & mask;
    pixels[x, y] := Pixel(r, g, b);
  }

  /**
   * The nested masking loop: rows top to bottom, in each row columns left to
   * right. `writes` records the cells written, in order, and the loop keeps
   * the buffer in step with it: a pixel is masked exactly when its cell is
   * in the record.
   */
  method MaskPixelsInPlace(pixels: array2<Pixel>, mask: bv8) returns (ghost writes: seq<Cell>)
    modifies pixels
    ensures forall x, y :: 0 <= x < pixels.Length0 && 0 <= y < pixels.Length1 ==>
      pixels[x, y] == MaskPixel(old(pixels[x, y]), mask)
    ensures Grid(pixels) == MaskImage(old(Grid(pixels)), mask)
    ensures writes == ScanOrder(pixels.Length0, pixels.Length1)
    ensures forall x, y :: 0 <= x < pixels.Length0 && 0 <= y < pixels.Length1 ==>
      pixels[x, y] == if Cell(x, y) in writes then MaskPixel(old(pixels[x, y]), mask) else old(pixels[x, y])
  {
    var width, height := pixels.Length0, pixels.Length1;
    writes := [];
    var y := 0;
    while y < height
      invariant 0 <= y <= height
      invariant writes == ScanOrder(width, y)
      invariant forall i, j :: 0 <= i < width && 0 <= j < height ==>
        pixels[i, j] == if j < y then MaskPixel(old(pixels[i, j]), mask) else old(pixels[i, j])
      invariant forall i, j :: 0 <= i < width && 0 <= j < height ==>
        pixels[i, j] == if Cell(i, j) in writes then MaskPixel(old(pixels[i, j]), mask) else old(pixels[i, j])
    {
      var x := 0;
      while x < width
        invariant 0 <= x <= width
        invariant writes == ScanOrder(width, y) + RowCells(x, y)
        invariant forall i, j :: 0 <= i < width && 0 <= j < height ==>
          pixels[i, j] == if j < y || (j == y && i < x) then MaskPixel(old(pixels[i, j]), mask) else old(pixels[i, j])
        invariant forall i, j :: 0 <= i < width && 0 <= j < height ==>
          pixels[i, j] == if Cell(i, j) in writes then MaskPixel(old(pixels[i, j]), mask) else old(pixels[i, j])
      {
        MaskPixelAt(pixels, x, y, mask);
        assert RowCells(x, y) + [Cell(x, y)] == RowCells(x + 1, y);
        writes := writes + [Cell(x, y)];
        x := x + 1;
      }
      y := y + 1;
    }
    ImageExt(Grid(pixels), MaskImage(old(Grid(pixels)), mask));
  }

  /** A fresh buffer holding the same pixels (Pillow's `convert("RGB")` of an RGB image). */
  method CopyImage(src: array2<Pixel>) returns (dst: array2<Pixel>)
    ensures fresh(dst)
    ensures Grid(dst) == Grid(src)
  {
    dst := new Pixel[src.Length0, src.Length1]((x, y) reads src =>
      if 0 <= x < src.Length0 && 0 <= y < src.Length1 then src[x, y] else Pixel(0, 0, 0));
    ImageExt(Grid(dst), Grid(src));
  }
}
